/**
 Per-tenant sliding-window limits on requests and tokens (internal/inbound/limiter.go).

 Times are nanoseconds.  The clock and the token estimate of a request are inputs.
 */
module Limiter {

  const MINUTE := 60_000_000_000
  const MAX_INT := 0x7FFF_FFFF_FFFF_FFFF

  /** Go's `int` is 64 bits wide: sums wrap around. */
  function Wrap(x: int): int {
    (x + MAX_INT + 1) % (2 * (MAX_INT + 1)) - (MAX_INT + 1)
  }

  datatype TokenRecord = TokenRecord(timestamp: int, tokens: int)

  // ---------------------------------------------------------------------------------------------
  // One tenant's bucket
  // ---------------------------------------------------------------------------------------------

  datatype Bucket = Bucket(rpm: int, tpm: int, requestTimes: seq<int>, tokenRecords: seq<TokenRecord>)

  /** The times not before the cutoff. */
  function Recent(times: seq<int>, cutoff: int): seq<int> {
    if times == [] then []
    else
      var t := times[|times| - 1];
      Recent(times[..|times| - 1], cutoff) + if t < cutoff then [] else [t]
  }

  function RecentRecords(records: seq<TokenRecord>, cutoff: int): seq<TokenRecord> {
    if records == [] then []
    else
      var r := records[|records| - 1];
      RecentRecords(records[..|records| - 1], cutoff) + if r.timestamp < cutoff then [] else [r]
  }

  /** The sum the program accumulates, wrapping at every addition. */
  function WrappedTokens(records: seq<TokenRecord>): int {
    if records == [] then 0
    else Wrap(WrappedTokens(records[..|records| - 1]) + records[|records| - 1].tokens)
  }

  lemma NoTokens()
    ensures WrappedTokens([]) == 0
  {
  }

  lemma WrappedStep(records: seq<TokenRecord>, r: TokenRecord)
    ensures WrappedTokens(records + [r]) == Wrap(WrappedTokens(records) + r.tokens)
  {
    assert (records + [r])[..|records|] == records;
  }

  function Unlimited(rpm: int, tpm: int): bool {
    rpm <= 0 && tpm <= 0
  }

  /** Whether the limits leave room for a request, given what the last minute holds. */
  function Room(rpm: int, tpm: int, recentRequests: nat, recentTokens: int, estimate: int): bool {
    !(rpm > 0 && recentRequests >= rpm) && !(tpm > 0 && Wrap(recentTokens + estimate) > tpm)
  }

  /** The bucket after a request, and whether the request was admitted. */
  function Serve(b: Bucket, now: int, estimate: int): (Bucket, bool) {
    if Unlimited(b.rpm, b.tpm) then (b, true)
    else
      var requests := Recent(b.requestTimes, now - MINUTE);
      var records := RecentRecords(b.tokenRecords, now - MINUTE);
      if Room(b.rpm, b.tpm, |requests|, WrappedTokens(records), estimate) then
        (b.(requestTimes := requests + [now], tokenRecords := records + [TokenRecord(now, estimate)]), true)
      else
        (b.(requestTimes := requests, tokenRecords := records), false)
  }

  class TenantBucket {
    var rpm: int
    var tpm: int
    var requestTimes: seq<int>
    var tokenRecords: seq<TokenRecord>

    ghost function View(): Bucket
      reads this
    {
      Bucket(rpm, tpm, requestTimes, tokenRecords)
    }

    constructor (rpm: int, tpm: int)
      ensures View() == Bucket(rpm, tpm, [], [])
    {
      this.rpm, this.tpm, requestTimes, tokenRecords := rpm, tpm, [], [];
    }

    /** Compacts the request times in place, keeping those not before the cutoff. */
    method PruneRequests(cutoff: int)
      modifies this`requestTimes
      ensures requestTimes == Recent(old(requestTimes), cutoff)
    {
      var validReqs := 0;
      ghost var all := requestTimes;
      for i := 0 to |requestTimes|
        invariant 0 <= validReqs <= i <= |requestTimes| == |all|
        invariant requestTimes[..validReqs] == Recent(all[..i], cutoff)
        invariant requestTimes[i..] == all[i..]
      {
        var t := requestTimes[i];
        assert t == requestTimes[i..][0] == all[i..][0];
        assert all[..i + 1][..i] == all[..i];
        if !(t < cutoff) {
          ghost var before := requestTimes;
          requestTimes := requestTimes[validReqs := t];
          assert requestTimes[..validReqs + 1] == before[..validReqs] + [t];
          validReqs := validReqs + 1;
        }
        assert requestTimes[i + 1..] == all[i..][1..];
      }
      assert all[..|all|] == all;
      requestTimes := requestTimes[..validReqs];
    }

    /** Compacts the token records in place and sums the tokens of those kept. */
    method PruneTokens(cutoff: int) returns (currentTokens: int)
      modifies this`tokenRecords
      ensures tokenRecords == RecentRecords(old(tokenRecords), cutoff)
      ensures currentTokens == WrappedTokens(tokenRecords)
    {
      NoTokens();
      hide Wrap, WrappedTokens;
      var validTokens := 0;
      currentTokens := 0;
      ghost var all := tokenRecords;
      for i := 0 to |tokenRecords|
        invariant 0 <= validTokens <= i <= |tokenRecords| == |all|
        invariant tokenRecords[..validTokens] == RecentRecords(all[..i], cutoff)
        invariant currentTokens == WrappedTokens(tokenRecords[..validTokens])
        invariant tokenRecords[i..] == all[i..]
      {
        var rec := tokenRecords[i];
        assert rec == tokenRecords[i..][0] == all[i..][0];
        assert all[..i + 1][..i] == all[..i];
        if !(rec.timestamp < cutoff) {
          ghost var kept := tokenRecords[..validTokens];
          tokenRecords := tokenRecords[validTokens := rec];
          assert tokenRecords[..validTokens + 1] == kept + [rec];
          WrappedStep(kept, rec);
          validTokens := validTokens + 1;
          currentTokens := Wrap(currentTokens + rec.tokens);
        }
        assert tokenRecords[i + 1..] == all[i..][1..];
      }
      assert all[..|all|] == all;
      tokenRecords := tokenRecords[..validTokens];
    }

    /** The limit check under the bucket's lock. */
    method Check(now: int, estimate: int) returns (admitted: bool)
      modifies this
      ensures (View(), admitted) == Serve(old(View()), now, estimate)
    {
      if rpm <= 0 && tpm <= 0 {
        return true;
      }
      var cutoff := now - MINUTE;
      PruneRequests(cutoff);
      var currentTokens := PruneTokens(cutoff);
      if rpm > 0 && |requestTimes| >= rpm {
        return false;
      }
      if tpm > 0 && Wrap(currentTokens + estimate) > tpm {
        return false;
      }
      requestTimes := requestTimes + [now];
      tokenRecords := tokenRecords + [TokenRecord(now, estimate)];
      return true;
    }
  }

  // ---------------------------------------------------------------------------------------------
  // All tenants
  // ---------------------------------------------------------------------------------------------

  datatype Tenants = Tenants(defaultRpm: int, defaultTpm: int, buckets: map<string, Bucket>) {
    /** The tenant's bucket, created with the default limits on first use. */
    function Of(tenant: string): Bucket {
      if tenant in buckets then buckets[tenant] else Bucket(defaultRpm, defaultTpm, [], [])
    }
  }

  /** What callers do to the limiter. */
  datatype Event = SetLimit(tenant: string, rpm: int, tpm: int) | Request(tenant: string, now: int, estimate: int)

  /** One call on a bucket: its new state, and whether a request was admitted (true for the other calls). */
  function ApplyTo(b: Bucket, e: Event): (Bucket, bool) {
    match e
    case SetLimit(_, rpm, tpm) => (b.(rpm := rpm, tpm := tpm), true)
    case Request(_, now, estimate) => Serve(b, now, estimate)
  }

  function Apply(s: Tenants, e: Event): (Tenants, bool) {
    var (b, admitted) := ApplyTo(s.Of(e.tenant), e);
    (s.(buckets := s.buckets[e.tenant := b]), admitted)
  }

  class RateLimiter {
    var defaultRpm: int
    var defaultTpm: int
    var tenants: map<string, TenantBucket>

    /** No two tenants share a bucket. */
    ghost predicate Valid()
      reads this
    {
      forall t, u :: t in tenants && u in tenants && t != u ==> tenants[t] != tenants[u]
    }

    ghost function View(): Tenants
      reads this, tenants.Values
    {
      Tenants(defaultRpm, defaultTpm, map t | t in tenants :: tenants[t].View())
    }

    constructor (defaultRpm: int, defaultTpm: int)
      ensures Valid() && View() == Tenants(defaultRpm, defaultTpm, map[])
    {
      this.defaultRpm, this.defaultTpm, tenants := defaultRpm, defaultTpm, map[];
    }

    method SetTenantLimit(tenant: string, rpm: int, tpm: int)
      requires Valid()
      modifies this, tenants.Values
      ensures Valid() && View() == Apply(old(View()), SetLimit(tenant, rpm, tpm)).0
    {
      if tenant !in tenants {
        var bucket := new TenantBucket(rpm, tpm);
        tenants := tenants[tenant := bucket];
        return;
      }
      var bucket := tenants[tenant];
      bucket.rpm, bucket.tpm := rpm, tpm;
    }

    method GetOrCreateBucket(tenant: string) returns (bucket: TenantBucket)
      requires Valid()
      modifies this`tenants
      ensures Valid() && tenant in tenants && tenants[tenant] == bucket
      ensures bucket in old(tenants.Values) || fresh(bucket)
      ensures tenants.Values - old(tenants.Values) <= {bucket}
      ensures View() == old(View()).(buckets := old(View()).buckets[tenant := old(View()).Of(tenant)])
    {
      if tenant !in tenants {
        bucket := new TenantBucket(defaultRpm, defaultTpm);
        tenants := tenants[tenant := bucket];
      } else {
        bucket := tenants[tenant];
      }
    }

    /** The check changes the bucket of its tenant and no other. */
    method CheckBucket(tenant: string, bucket: TenantBucket, now: int, estimate: int) returns (admitted: bool)
      requires Valid() && tenant in tenants && tenants[tenant] == bucket
      modifies bucket
      ensures Valid() && (View(), admitted) == Apply(old(View()), Request(tenant, now, estimate))
    {
      hide Serve;
      ghost var before := View();
      admitted := bucket.Check(now, estimate);
      assert View().buckets == before.buckets[tenant := bucket.View()];
    }

    method Execute(tenant: string, now: int, estimate: int) returns (admitted: bool)
      requires Valid()
      modifies this, tenants.Values
      ensures Valid() && View() == Apply(old(View()), Request(tenant, now, estimate)).0
      ensures admitted == Apply(old(View()), Request(tenant, now, estimate)).1
    {
      var bucket := GetOrCreateBucket(tenant);
      admitted := CheckBucket(tenant, bucket, now, estimate);
    }
  }

  // ---------------------------------------------------------------------------------------------
  // Runs, and isolation between tenants
  // ---------------------------------------------------------------------------------------------

  function Run(s: Tenants, events: seq<Event>): Tenants
    decreases events
  {
    if events == [] then s else Run(Apply(s, events[0]).0, events[1..])
  }

  function Decisions(s: Tenants, events: seq<Event>): (ds: seq<bool>)
    ensures |ds| == |events|
    decreases events
  {
    if events == [] then [] else [Apply(s, events[0]).1] + Decisions(Apply(s, events[0]).0, events[1..])
  }

  function RunBucket(b: Bucket, events: seq<Event>): Bucket
    decreases events
  {
    if events == [] then b else RunBucket(ApplyTo(b, events[0]).0, events[1..])
  }

  function BucketDecisions(b: Bucket, events: seq<Event>): (ds: seq<bool>)
    ensures |ds| == |events|
    decreases events
  {
    if events == [] then [] else [ApplyTo(b, events[0]).1] + BucketDecisions(ApplyTo(b, events[0]).0, events[1..])
  }

  /** The calls of one tenant. */
  function OwnEvents(tenant: string, events: seq<Event>): seq<Event> {
    if events == [] then []
    else (if events[0].tenant == tenant then [events[0]] else []) + OwnEvents(tenant, events[1..])
  }

  /** The answers to the calls of one tenant. */
  function OwnDecisions(tenant: string, events: seq<Event>, ds: seq<bool>): (own: seq<bool>)
    requires |ds| == |events|
    ensures |own| == |OwnEvents(tenant, events)|
  {
    if events == [] then []
    else (if events[0].tenant == tenant then [ds[0]] else []) + OwnDecisions(tenant, events[1..], ds[1..])
  }

  /** What a tenant sees is what it would see alone: no call of another tenant changes its bucket or its answers. */
  lemma {:induction false} TenantsAreIsolated(s: Tenants, events: seq<Event>, tenant: string)
    ensures Run(s, events).Of(tenant) == RunBucket(s.Of(tenant), OwnEvents(tenant, events))
    ensures OwnDecisions(tenant, events, Decisions(s, events))
              == BucketDecisions(s.Of(tenant), OwnEvents(tenant, events))
    decreases events
  {
    if events != [] {
      var e, rest := events[0], events[1..];
      var s' := Apply(s, e).0;
      TenantsAreIsolated(s', rest, tenant);
      assert Decisions(s, events)[1..] == Decisions(s', rest);
      if e.tenant == tenant {
        var own := OwnEvents(tenant, events);
        assert own[0] == e && own[1..] == OwnEvents(tenant, rest);
      } else {
        assert OwnEvents(tenant, events) == OwnEvents(tenant, rest);
        assert s'.Of(tenant) == s.Of(tenant);
      }
    }
  }

  // ---------------------------------------------------------------------------------------------
  // The full history: nothing is ever pruned, every decision counts from scratch
  // ---------------------------------------------------------------------------------------------

  datatype FullBucket = FullBucket(rpm: int, tpm: int, history: seq<TokenRecord>)

  function InWindow(r: TokenRecord, lo: int, hi: int): bool {
    lo <= r.timestamp <= hi
  }

  /** The admissions of a closed span. */
  function Count(history: seq<TokenRecord>, lo: int, hi: int): nat {
    if history == [] then 0
    else
      var r := history[|history| - 1];
      Count(history[..|history| - 1], lo, hi) + if InWindow(r, lo, hi) then 1 else 0
  }

  /** Their tokens, summed without wrap-around. */
  function Sum(history: seq<TokenRecord>, lo: int, hi: int): int {
    if history == [] then 0
    else
      var r := history[|history| - 1];
      Sum(history[..|history| - 1], lo, hi) + if InWindow(r, lo, hi) then r.tokens else 0
  }

  function FullApply(f: FullBucket, e: Event): (FullBucket, bool) {
    match e
    case SetLimit(_, rpm, tpm) => (f.(rpm := rpm, tpm := tpm), true)
    case Request(_, now, estimate) =>
      if Unlimited(f.rpm, f.tpm) then (f, true)
      else if Room(f.rpm, f.tpm, Count(f.history, now - MINUTE, now), Sum(f.history, now - MINUTE, now), estimate) then
        (f.(history := f.history + [TokenRecord(now, estimate)]), true)
      else (f, false)
  }

  function FullRun(f: FullBucket, events: seq<Event>): FullBucket
    decreases events
  {
    if events == [] then f else FullRun(FullApply(f, events[0]).0, events[1..])
  }

  function FullDecisions(f: FullBucket, events: seq<Event>): (ds: seq<bool>)
    ensures |ds| == |events|
    decreases events
  {
    if events == [] then [] else [FullApply(f, events[0]).1] + FullDecisions(FullApply(f, events[0]).0, events[1..])
  }

  /** The clock never goes back, starting from `last`. */
  ghost predicate ClockFrom(last: int, events: seq<Event>)
    decreases events
  {
    events == [] ||
    match events[0]
    case SetLimit(_, _, _) => ClockFrom(last, events[1..])
    case Request(_, now, _) => last <= now && ClockFrom(now, events[1..])
  }

  ghost predicate Before(history: seq<TokenRecord>, last: int) {
    forall i :: 0 <= i < |history| ==> history[i].timestamp <= last
  }

  function Times(records: seq<TokenRecord>): seq<int> {
    if records == [] then [] else Times(records[..|records| - 1]) + [records[|records| - 1].timestamp]
  }

  /** The pruned lists are in lock-step and are the full history from some expired cutoff on. */
  ghost predicate Refines(b: Bucket, f: FullBucket, cut: int, last: int) {
    && b.rpm == f.rpm && b.tpm == f.tpm
    && Before(f.history, last)
    && cut <= last - MINUTE
    && b.tokenRecords == RecentRecords(f.history, cut)
    && b.requestTimes == Times(b.tokenRecords)
  }

  /** Pruning twice is pruning at the later cutoff. */
  lemma {:induction false} PruneTwice(records: seq<TokenRecord>, c: int, d: int)
    requires c <= d
    ensures RecentRecords(RecentRecords(records, c), d) == RecentRecords(records, d)
  {
    if records != [] {
      var front, r := records[..|records| - 1], records[|records| - 1];
      PruneTwice(front, c, d);
      var kept := RecentRecords(front, c);
      assert (kept + [r])[..|kept|] == kept;
      assert RecentRecords(records, c) == if r.timestamp < c then kept else kept + [r];
    }
  }

  /** The two compactions stay in lock-step. */
  lemma {:induction false} PruneTimes(records: seq<TokenRecord>, c: int)
    ensures Recent(Times(records), c) == Times(RecentRecords(records, c))
  {
    if records != [] {
      var front, r := records[..|records| - 1], records[|records| - 1];
      PruneTimes(front, c);
      assert Times(records) == Times(front) + [r.timestamp];
      assert Times(records)[..|Times(records)| - 1] == Times(front);
      var kept := RecentRecords(front, c);
      assert (kept + [r])[..|kept|] == kept;
      assert RecentRecords(records, c) == if r.timestamp < c then kept else kept + [r];
    }
  }

  lemma {:induction false} PrunedCounts(history: seq<TokenRecord>, c: int, now: int)
    requires Before(history, now)
    ensures |Times(RecentRecords(history, c))| == |RecentRecords(history, c)| == Count(history, c, now)
    ensures WrappedTokens(RecentRecords(history, c)) == Wrap(Sum(history, c, now))
  {
    if history != [] {
      var front, r := history[..|history| - 1], history[|history| - 1];
      PrunedCounts(front, c, now);
      var kept := RecentRecords(front, c);
      assert (kept + [r])[..|kept|] == kept;
      assert RecentRecords(history, c) == if r.timestamp < c then kept else kept + [r];
      WrapSum(Sum(front, c, now), r.tokens);
      hide Wrap;
    }
  }

  /** Wrapping early does not matter. */
  lemma WrapSum(x: int, y: int)
    ensures Wrap(Wrap(x) + y) == Wrap(x + y)
  {
    var m := 2 * (MAX_INT + 1);
    var k := (x + MAX_INT + 1) / m;
    assert Wrap(x) == x - k * m;
    ModShift(x + y + MAX_INT + 1, -k, m);
  }

  lemma ModShift(x: int, k: int, m: int)
    requires m > 0
    ensures (x + k * m) % m == x % m
  {
    var q, r := x / m, x % m;
    assert x + k * m == (q + k) * m + r;
    QuotientIsUnique(x + k * m, q + k, r, m);
  }

  lemma QuotientIsUnique(x: int, q: int, r: int, m: int)
    requires m > 0 && 0 <= r < m && x == q * m + r
    ensures x % m == r
  {
    var d := x / m - q;
    assert d * m == r - x % m;
    MultipleIsFar(d, m);
  }

  lemma MultipleIsFar(d: int, m: int)
    requires m > 0
    ensures d >= 1 ==> d * m >= m
    ensures d <= -1 ==> d * m <= -m
  {
  }

  /** What pruning leaves in hand is what counting the full history finds. */
  lemma RequestAgrees(b: Bucket, f: FullBucket, cut: int, last: int, now: int, estimate: int)
    requires Refines(b, f, cut, last) && last <= now
    ensures var c := now - MINUTE;
            var records := RecentRecords(f.history, c);
            && RecentRecords(b.tokenRecords, c) == records
            && Recent(b.requestTimes, c) == Times(records)
            && Room(b.rpm, b.tpm, |Times(records)|, WrappedTokens(records), estimate)
               == Room(b.rpm, b.tpm, Count(f.history, c, now), Sum(f.history, c, now), estimate)
  {
    var c := now - MINUTE;
    PruneTwice(f.history, cut, c);
    PruneTimes(b.tokenRecords, c);
    PrunedCounts(f.history, c, now);
    RoomWraps(b.rpm, b.tpm, Count(f.history, c, now), Sum(f.history, c, now), estimate);
    hide Room, RecentRecords, Recent, Times, Count, Sum, WrappedTokens, Wrap;
  }

  /** One call: same answer, and the refinement survives with a later cutoff. */
  lemma CallAgrees(b: Bucket, f: FullBucket, cut: int, last: int, e: Event) returns (cut': int, last': int)
    requires Refines(b, f, cut, last)
    requires e.Request? ==> last <= e.now
    ensures ApplyTo(b, e).1 == FullApply(f, e).1
    ensures last' == if e.Request? then e.now else last
    ensures Refines(ApplyTo(b, e).0, FullApply(f, e).0, cut', last')
  {
    hide Room, RecentRecords, Recent, Times, Count, Sum, WrappedTokens, Wrap;
    cut', last' := cut, last;
    if e.Request? {
      last' := e.now;
      if !Unlimited(b.rpm, b.tpm) {
        cut' := e.now - MINUTE;
        RequestAgrees(b, f, cut, last, e.now, e.estimate);
        AppendRecord(f.history, TokenRecord(e.now, e.estimate), cut');
      }
    }
  }

  /** The check wraps anyway, so it does not matter that the sum arrives wrapped. */
  lemma RoomWraps(rpm: int, tpm: int, n: nat, sum: int, estimate: int)
    ensures Room(rpm, tpm, n, Wrap(sum), estimate) == Room(rpm, tpm, n, sum, estimate)
  {
    WrapSum(sum, estimate);
  }

  lemma AppendRecord(history: seq<TokenRecord>, r: TokenRecord, c: int)
    requires c <= r.timestamp
    ensures RecentRecords(history + [r], c) == RecentRecords(history, c) + [r]
    ensures Times(RecentRecords(history, c) + [r]) == Times(RecentRecords(history, c)) + [r.timestamp]
  {
    assert (history + [r])[..|history|] == history;
    var kept := RecentRecords(history, c);
    assert (kept + [r])[..|kept|] == kept;
  }

  /**
   With a clock that never goes back, the pruned bucket answers every call exactly as one that keeps the
   whole history and counts the last minute from scratch.
   */
  lemma {:induction false} PruningIsInvisible(b: Bucket, f: FullBucket, cut: int, last: int, events: seq<Event>)
    requires Refines(b, f, cut, last) && ClockFrom(last, events)
    ensures BucketDecisions(b, events) == FullDecisions(f, events)
    ensures exists cut', last' :: Refines(RunBucket(b, events), FullRun(f, events), cut', last')
    decreases events
  {
    if events == [] {
      assert Refines(RunBucket(b, events), FullRun(f, events), cut, last);
    } else {
      var cut', last' := CallAgrees(b, f, cut, last, events[0]);
      var b', f', rest := ApplyTo(b, events[0]).0, FullApply(f, events[0]).0, events[1..];
      PruningIsInvisible(b', f', cut', last', rest);
      var c, l :| Refines(RunBucket(b', rest), FullRun(f', rest), c, l);
      assert Refines(RunBucket(b, events), FullRun(f, events), c, l);
    }
  }

  /** A refused request costs nothing: every later answer is what it would have been without it. */
  lemma RejectionConsumesNothing(b: Bucket, f: FullBucket, cut: int, last: int, now: int, estimate: int,
                                 events: seq<Event>)
    requires Refines(b, f, cut, last) && last <= now && ClockFrom(now, events)
    requires !Serve(b, now, estimate).1
    ensures BucketDecisions(Serve(b, now, estimate).0, events) == BucketDecisions(b, events)
  {
    var cut', last' := CallAgrees(b, f, cut, last, Request("", now, estimate));
    PruningIsInvisible(Serve(b, now, estimate).0, f, cut', now, events);
    PruningIsInvisible(b, f, cut, now, events);
  }

  // ---------------------------------------------------------------------------------------------
  // The exact decision
  // ---------------------------------------------------------------------------------------------

  predicate Is64Bit(x: int) {
    -MAX_INT - 1 <= x <= MAX_INT
  }

  /** The limits in force, and what has been recorded under limits so far. */
  datatype Tally = Tally(rpm: int, tpm: int, recorded: seq<TokenRecord>)

  /** The recorded requests of the last 60 seconds, both ends included. */
  function LastMinute(recorded: seq<TokenRecord>, now: int): set<int> {
    set i | 0 <= i < |recorded| && now - 60_000_000_000 <= recorded[i].timestamp <= now
  }

  function LastMinuteTokens(recorded: seq<TokenRecord>, now: int): int {
    if recorded == [] then 0
    else
      var r := recorded[|recorded| - 1];
      LastMinuteTokens(recorded[..|recorded| - 1], now)
      + if now - 60_000_000_000 <= r.timestamp <= now then r.tokens else 0
  }

  /** A limit that is not positive is no limit; the others must leave room for the request. */
  predicate Granted(t: Tally, now: int, estimate: int) {
    && (t.rpm <= 0 || |LastMinute(t.recorded, now)| < t.rpm)
    && (t.tpm <= 0 || LastMinuteTokens(t.recorded, now) + estimate <= t.tpm)
  }

  /** The token check, if there is one, does not overflow. */
  predicate NoOverflow(t: Tally, now: int, estimate: int) {
    t.tpm > 0 ==> Is64Bit(LastMinuteTokens(t.recorded, now) + estimate)
  }

  lemma {:induction false} CountsTheLastMinute(history: seq<TokenRecord>, now: int)
    ensures Count(history, now - MINUTE, now) == |LastMinute(history, now)|
    ensures Sum(history, now - MINUTE, now) == LastMinuteTokens(history, now)
  {
    if history != [] {
      var n := |history| - 1;
      var front := history[..n];
      CountsTheLastMinute(front, now);
      var recent := now - MINUTE <= history[n].timestamp <= now;
      assert LastMinute(history, now) == if recent then LastMinute(front, now) + {n} else LastMinute(front, now);
      assert n !in LastMinute(front, now);
    }
  }

  function TallyOf(f: FullBucket): Tally {
    Tally(f.rpm, f.tpm, f.history)
  }

  lemma FullDecidesExactly(f: FullBucket, e: Event)
    requires e.Request? && NoOverflow(TallyOf(f), e.now, e.estimate)
    ensures FullApply(f, e).1 <==> Granted(TallyOf(f), e.now, e.estimate)
  {
    CountsTheLastMinute(f.history, e.now);
    NoWrap(Sum(f.history, e.now - MINUTE, e.now) + e.estimate);
    hide Wrap, Count, Sum, LastMinute, LastMinuteTokens;
  }

  /** One request on a bucket is admitted exactly when its history leaves room for it. */
  lemma ServesExactly(b: Bucket, f: FullBucket, cut: int, last: int, now: int, estimate: int)
    requires Refines(b, f, cut, last) && last <= now && NoOverflow(TallyOf(f), now, estimate)
    ensures Serve(b, now, estimate).1 <==> Granted(TallyOf(f), now, estimate)
  {
    hide Serve, FullApply, Granted, Refines, NoOverflow;
    var e := Request("", now, estimate);
    var cut', last' := CallAgrees(b, f, cut, last, e);
    FullDecidesExactly(f, e);
  }

  /** The tally after a call that was answered `admitted`: requests let through without any limit leave no record. */
  function TallyStep(t: Tally, e: Event, admitted: bool): Tally {
    match e
    case SetLimit(_, rpm, tpm) => Tally(rpm, tpm, t.recorded)
    case Request(_, now, estimate) =>
      if admitted && (t.rpm > 0 || t.tpm > 0) then
        Tally(t.rpm, t.tpm, t.recorded + [TokenRecord(now, estimate)])
      else t
  }

  function TallyAfter(t: Tally, events: seq<Event>, ds: seq<bool>): Tally
    requires |ds| == |events|
    decreases events
  {
    if events == [] then t else TallyAfter(TallyStep(t, events[0], ds[0]), events[1..], ds[1..])
  }

  /** The full history keeps the tally, and each answer is the one for the tally before it. */
  lemma {:induction false} TallyIsKept(f: FullBucket, events: seq<Event>, k: nat)
    requires k < |events| && events[k].Request?
    requires var t := TallyAfter(TallyOf(f), events[..k], FullDecisions(f, events)[..k]);
             NoOverflow(t, events[k].now, events[k].estimate)
    ensures var ds := FullDecisions(f, events);
            var t := TallyAfter(TallyOf(f), events[..k], ds[..k]);
            ds[k] <==> Granted(t, events[k].now, events[k].estimate)
    decreases k
  {
    hide Granted, NoOverflow;
    var ds := FullDecisions(f, events);
    var f', rest := FullApply(f, events[0]).0, events[1..];
    assert ds[1..] == FullDecisions(f', rest) && ds[0] == FullApply(f, events[0]).1;
    if k == 0 {
      assert events[..0] == [] && ds[..0] == [];
      FullDecidesExactly(f, events[0]);
    } else {
      assert events[..k][1..] == rest[..k - 1] && ds[..k][1..] == ds[1..][..k - 1];
      assert events[..k][0] == events[0] && ds[..k][0] == ds[0];
      assert TallyOf(f') == TallyStep(TallyOf(f), events[0], ds[0]);
      hide FullApply, TallyStep;
      TallyIsKept(f', rest, k - 1);
    }
  }

  /**
   The answer to every request of every run, from the history alone: with the limits set last for its tenant, or
   else the defaults, a request passes exactly when the admissions recorded for the tenant in the last 60 seconds
   leave room for it, provided the clock does not go back and the token sum fits 64 bits.
   */
  lemma DecisionsAreExact(s: Tenants, events: seq<Event>, tenant: string, last: int, k: nat)
    requires tenant !in s.buckets && ClockFrom(last, OwnEvents(tenant, events))
    requires k < |OwnEvents(tenant, events)| && OwnEvents(tenant, events)[k].Request?
    requires var own, ds := OwnEvents(tenant, events), OwnDecisions(tenant, events, Decisions(s, events));
             var t := TallyAfter(Tally(s.defaultRpm, s.defaultTpm, []), own[..k], ds[..k]);
             NoOverflow(t, own[k].now, own[k].estimate)
    ensures var own, ds := OwnEvents(tenant, events), OwnDecisions(tenant, events, Decisions(s, events));
            var t := TallyAfter(Tally(s.defaultRpm, s.defaultTpm, []), own[..k], ds[..k]);
            ds[k] <==> Granted(t, own[k].now, own[k].estimate)
  {
    hide Granted, NoOverflow, TallyAfter, Decisions, OwnDecisions, BucketDecisions, FullDecisions;
    var f := FullBucket(s.defaultRpm, s.defaultTpm, []);
    TenantsAreIsolated(s, events, tenant);
    PruningIsInvisible(s.Of(tenant), f, last - MINUTE, last, OwnEvents(tenant, events));
    TallyIsKept(f, OwnEvents(tenant, events), k);
  }

  // ---------------------------------------------------------------------------------------------
  // Bounds over whole runs
  // ---------------------------------------------------------------------------------------------

  /** The requests of a run that were admitted. */
  function Admissions(events: seq<Event>, ds: seq<bool>): seq<TokenRecord>
    requires |ds| == |events|
  {
    if events == [] then []
    else
      (if events[0].Request? && ds[0] then [TokenRecord(events[0].now, events[0].estimate)] else [])
      + Admissions(events[1..], ds[1..])
  }

  /** Only requests, every estimate between 0 and `most`. */
  ghost predicate RequestsUpTo(events: seq<Event>, most: int) {
    forall i :: 0 <= i < |events| ==> events[i].Request? && 0 <= events[i].estimate <= most
  }

  ghost predicate OnlyRequests(events: seq<Event>) {
    forall i :: 0 <= i < |events| ==> events[i].Request?
  }

  /** The admissions of the closed minute from `a` on. */
  function MinuteCount(history: seq<TokenRecord>, a: int): nat {
    Count(history, a, a + MINUTE)
  }

  function MinuteSum(history: seq<TokenRecord>, a: int): int {
    Sum(history, a, a + MINUTE)
  }

  ghost predicate RequestsBounded(history: seq<TokenRecord>, rpm: int) {
    forall a :: MinuteCount(history, a) <= rpm
  }

  ghost predicate TokensBounded(history: seq<TokenRecord>, tpm: int) {
    && (forall i :: 0 <= i < |history| ==> history[i].tokens >= 0)
    && forall a :: MinuteSum(history, a) <= tpm
  }

  /** Up to now, a later start counts less. */
  lemma {:induction false} CountShrinks(history: seq<TokenRecord>, a: int, c: int, hi: int, now: int)
    requires Before(history, now) && c <= a
    ensures Count(history, a, hi) <= Count(history, c, now)
  {
    if history != [] {
      CountShrinks(history[..|history| - 1], a, c, hi, now);
    }
  }

  lemma {:induction false} SumShrinks(history: seq<TokenRecord>, a: int, c: int, hi: int, now: int)
    requires Before(history, now) && c <= a
    requires forall i :: 0 <= i < |history| ==> history[i].tokens >= 0
    ensures 0 <= Sum(history, a, hi) <= Sum(history, c, now)
  {
    if history != [] {
      SumShrinks(history[..|history| - 1], a, c, hi, now);
    }
  }

  lemma RequestStep(f: FullBucket, now: int, estimate: int)
    requires f.rpm > 0 && Before(f.history, now) && RequestsBounded(f.history, f.rpm)
    ensures RequestsBounded(FullApply(f, Request("", now, estimate)).0.history, f.rpm)
  {
    var h, r := f.history, TokenRecord(now, estimate);
    if FullApply(f, Request("", now, estimate)).0.history == h + [r] {
      assert (h + [r])[..|h|] == h;
      forall a ensures MinuteCount(h + [r], a) <= f.rpm {
        assert MinuteCount(h, a) <= f.rpm;
        if InWindow(r, a, a + MINUTE) {
          CountShrinks(h, a, now - MINUTE, a + MINUTE, now);
        }
      }
    }
  }

  lemma TokenStep(f: FullBucket, now: int, estimate: int)
    requires 0 < f.tpm && 0 <= estimate <= MAX_INT - f.tpm
    requires Before(f.history, now) && TokensBounded(f.history, f.tpm)
    ensures TokensBounded(FullApply(f, Request("", now, estimate)).0.history, f.tpm)
  {
    var h, r := f.history, TokenRecord(now, estimate);
    if FullApply(f, Request("", now, estimate)).0.history == h + [r] {
      assert (h + [r])[..|h|] == h;
      var current := Sum(h, now - MINUTE, now);
      assert current == MinuteSum(h, now - MINUTE) <= f.tpm;
      SumShrinks(h, now - MINUTE, now - MINUTE, now, now);
      NoWrap(current + estimate);
      forall a ensures MinuteSum(h + [r], a) <= f.tpm {
        assert MinuteSum(h, a) <= f.tpm;
        if InWindow(r, a, a + MINUTE) {
          SumShrinks(h, a, now - MINUTE, a + MINUTE, now);
        }
      }
    }
  }

  lemma NoWrap(x: int)
    ensures Wrap(x) == x <==> -MAX_INT - 1 <= x <= MAX_INT
    ensures MAX_INT < x <= 2 * MAX_INT + 1 ==> Wrap(x) == x - 2 * (MAX_INT + 1)
  {
  }

  /** With fixed limits, the history grows by exactly the admissions. */
  lemma {:induction false} HistoryIsAdmissions(f: FullBucket, events: seq<Event>)
    requires OnlyRequests(events) && !Unlimited(f.rpm, f.tpm)
    ensures FullRun(f, events) == FullBucket(f.rpm, f.tpm, f.history + Admissions(events, FullDecisions(f, events)))
    decreases events
  {
    if events != [] {
      HistoryIsAdmissions(FullApply(f, events[0]).0, events[1..]);
      assert FullDecisions(f, events)[1..] == FullDecisions(FullApply(f, events[0]).0, events[1..]);
    }
  }

  lemma {:induction false} RequestRun(f: FullBucket, last: int, events: seq<Event>)
    requires f.rpm > 0 && Before(f.history, last) && RequestsBounded(f.history, f.rpm)
    requires OnlyRequests(events) && ClockFrom(last, events)
    ensures RequestsBounded(FullRun(f, events).history, f.rpm)
    decreases events
  {
    if events != [] {
      RequestStep(f, events[0].now, events[0].estimate);
      RequestRun(FullApply(f, events[0]).0, events[0].now, events[1..]);
    }
  }

  lemma {:induction false} TokenRun(f: FullBucket, last: int, events: seq<Event>)
    requires 0 < f.tpm <= MAX_INT && Before(f.history, last) && TokensBounded(f.history, f.tpm)
    requires RequestsUpTo(events, MAX_INT - f.tpm) && ClockFrom(last, events)
    ensures TokensBounded(FullRun(f, events).history, f.tpm)
    decreases events
  {
    if events != [] {
      TokenStep(f, events[0].now, events[0].estimate);
      TokenRun(FullApply(f, events[0]).0, events[0].now, events[1..]);
    }
  }

  /** The admissions of one tenant over a run of the whole limiter. */
  function TenantAdmissions(s: Tenants, events: seq<Event>, tenant: string): seq<TokenRecord> {
    Admissions(OwnEvents(tenant, events), BucketDecisions(s.Of(tenant), OwnEvents(tenant, events)))
  }

  /** From a fresh bucket, a tenant's admissions are the full history. */
  lemma AdmissionsAreHistory(b: Bucket, last: int, events: seq<Event>)
    requires b.requestTimes == [] && b.tokenRecords == [] && !Unlimited(b.rpm, b.tpm)
    requires OnlyRequests(events) && ClockFrom(last, events)
    ensures Admissions(events, BucketDecisions(b, events)) == FullRun(FullBucket(b.rpm, b.tpm, []), events).history
  {
    var f := FullBucket(b.rpm, b.tpm, []);
    PruningIsInvisible(b, f, last - MINUTE, last, events);
    HistoryIsAdmissions(f, events);
  }

  /**
   Whatever the other tenants do: with its limits fixed, a tenant is admitted at most `rpm` times in any
   closed window of one minute, and at most `k * rpm` times in any half-open span of `k` minutes.
   */
  lemma RequestBound(s: Tenants, events: seq<Event>, tenant: string, last: int, a: int, k: nat)
    requires s.Of(tenant).rpm > 0 && s.Of(tenant).requestTimes == [] && s.Of(tenant).tokenRecords == []
    requires OnlyRequests(OwnEvents(tenant, events)) && ClockFrom(last, OwnEvents(tenant, events))
    ensures MinuteCount(TenantAdmissions(s, events, tenant), a) <= s.Of(tenant).rpm
    ensures Count(TenantAdmissions(s, events, tenant), a, a + k * MINUTE - 1) <= k * s.Of(tenant).rpm
  {
    var b := s.Of(tenant);
    var own := OwnEvents(tenant, events);
    AdmissionsAreHistory(b, last, own);
    RequestRun(FullBucket(b.rpm, b.tpm, []), last, own);
    SpanBound(TenantAdmissions(s, events, tenant), b.rpm, a, k);
  }

  /** A half-open span splits into minutes; times are whole nanoseconds. */
  lemma {:induction false} SpanBound(history: seq<TokenRecord>, rpm: int, a: int, k: nat)
    requires RequestsBounded(history, rpm)
    ensures Count(history, a, a + k * MINUTE - 1) <= k * rpm
  {
    if k == 0 {
      EmptySpan(history, a);
    } else {
      SpanBound(history, rpm, a, k - 1);
      var b := a + (k - 1) * MINUTE;
      assert MinuteCount(history, b) <= rpm;
      SplitSpan(history, a, b, b + MINUTE);
      assert a + k * MINUTE - 1 == b + MINUTE - 1 && (k - 1) * rpm + rpm == k * rpm;
      hide Count;
    }
  }

  lemma {:induction false} EmptySpan(history: seq<TokenRecord>, a: int)
    ensures Count(history, a, a - 1) == 0
  {
    if history != [] {
      EmptySpan(history[..|history| - 1], a);
    }
  }

  lemma {:induction false} SplitSpan(history: seq<TokenRecord>, a: int, b: int, c: int)
    requires a <= b <= c
    ensures Count(history, a, c - 1) <= Count(history, a, b - 1) + Count(history, b, c)
  {
    if history != [] {
      SplitSpan(history[..|history| - 1], a, b, c);
    }
  }

  /**
   Likewise at most `tpm` estimated tokens, for estimates that cannot overflow the check: between 0 and
   the largest integer less `tpm`.
   */
  lemma TokenBound(s: Tenants, events: seq<Event>, tenant: string, last: int, a: int)
    requires 0 < s.Of(tenant).tpm <= MAX_INT && s.Of(tenant).requestTimes == [] && s.Of(tenant).tokenRecords == []
    requires RequestsUpTo(OwnEvents(tenant, events), MAX_INT - s.Of(tenant).tpm)
             && ClockFrom(last, OwnEvents(tenant, events))
    ensures MinuteSum(TenantAdmissions(s, events, tenant), a) <= s.Of(tenant).tpm
  {
    var b := s.Of(tenant);
    var own := OwnEvents(tenant, events);
    AdmissionsAreHistory(b, last, own);
    TokenRun(FullBucket(b.rpm, b.tpm, []), last, own);
  }

  // ---------------------------------------------------------------------------------------------
  // Where the token check fails
  // ---------------------------------------------------------------------------------------------

  /** The wrapped comparison decides the true one, unless the sum overflows, or underflows so far that it looks high. */
  lemma TokenCheckIsExact(tpm: int, current: int, estimate: int)
    requires 0 < tpm <= MAX_INT && Is64Bit(current) && Is64Bit(estimate)
    ensures var sum := current + estimate;
            (Wrap(sum) > tpm <==> sum > tpm) <==>
              sum <= MAX_INT && (sum < -MAX_INT - 1 ==> sum + 2 * (MAX_INT + 1) <= tpm)
  {
    NoWrap(current + estimate);
    Underflow(current + estimate);
  }

  lemma Underflow(x: int)
    ensures -2 * (MAX_INT + 1) <= x < -MAX_INT - 1 ==> Wrap(x) == x + 2 * (MAX_INT + 1)
  {
  }

  /** The admissions of a run of requests from a fresh bucket. */
  function Admitted(rpm: int, tpm: int, events: seq<Event>): seq<TokenRecord> {
    Admissions(events, BucketDecisions(Bucket(rpm, tpm, [], []), events))
  }

  /** Requests with safe estimates, and any number of requests with the estimate `x`. */
  ghost predicate SafeOr(events: seq<Event>, tpm: int, x: int) {
    forall i :: 0 <= i < |events| ==>
      events[i].Request? && (0 <= events[i].estimate <= MAX_INT - tpm || events[i].estimate == x)
  }

  /** No closed minute of any run with safe estimates and `x` holds more than `tpm` tokens. */
  ghost predicate QuotaHolds(rpm: int, tpm: int, x: int) {
    forall events, last, a :: SafeOr(events, tpm, x) && ClockFrom(last, events) ==>
      MinuteSum(Admitted(rpm, tpm, events), a) <= tpm
  }

  /** `n` requests of one token each at time `t`. */
  function Ones(n: nat, t: int): seq<Event> {
    if n == 0 then [] else [Request("", t, 1)] + Ones(n - 1, t)
  }

  lemma {:induction false} OnesAre(n: nat, t: int, last: int)
    requires last <= t
    ensures |Ones(n, t)| == n && forall i :: 0 <= i < n ==> Ones(n, t)[i] == Request("", t, 1)
    ensures ClockFrom(last, Ones(n, t))
  {
    if n > 0 {
      OnesAre(n - 1, t, t);
    }
  }

  /** While the quota lasts every one of them is admitted, and the minutes that contain `t` grow by that much. */
  lemma {:induction false} OnesAreAdmitted(f: FullBucket, n: nat, t: int)
    requires f.rpm <= 0 < f.tpm <= MAX_INT
    requires -MAX_INT - 1 <= Sum(f.history, t - MINUTE, t) && Sum(f.history, t - MINUTE, t) + n <= f.tpm
    ensures var f' := FullRun(f, Ones(n, t));
            && f'.rpm == f.rpm && f'.tpm == f.tpm
            && forall lo, hi :: Sum(f'.history, lo, hi) == Sum(f.history, lo, hi) + if lo <= t <= hi then n else 0
    decreases n
  {
    if n > 0 {
      var r := TokenRecord(t, 1);
      NoWrap(Sum(f.history, t - MINUTE, t) + 1);
      hide Wrap;
      SumStep(f.history, r);
      var f1 := f.(history := f.history + [r]);
      Admits(f, Request("", t, 1));
      assert Ones(n, t)[1..] == Ones(n - 1, t);
      hide Sum, FullApply;
      OnesAreAdmitted(f1, n - 1, t);
    }
  }

  /** A request for which there is room is recorded. */
  lemma Admits(f: FullBucket, e: Event)
    requires e.Request? && f.tpm > 0 && (f.rpm <= 0 || Count(f.history, e.now - MINUTE, e.now) < f.rpm)
    requires Wrap(Sum(f.history, e.now - MINUTE, e.now) + e.estimate) <= f.tpm
    ensures FullApply(f, e) == (f.(history := f.history + [TokenRecord(e.now, e.estimate)]), true)
  {
    hide Wrap, Count, Sum;
  }

  lemma SumStep(history: seq<TokenRecord>, r: TokenRecord)
    ensures forall lo, hi ::
              Sum(history + [r], lo, hi) == Sum(history, lo, hi) + if InWindow(r, lo, hi) then r.tokens else 0
  {
    assert (history + [r])[..|history|] == history;
  }

  lemma {:induction false} FullRunConcat(f: FullBucket, a: seq<Event>, b: seq<Event>)
    ensures FullRun(f, a + b) == FullRun(FullRun(f, a), b)
    decreases a
  {
    hide FullApply;
    if a == [] {
      assert a + b == b;
    } else {
      assert (a + b)[0] == a[0] && (a + b)[1..] == a[1..] + b;
      FullRunConcat(FullApply(f, a[0]).0, a[1..], b);
    }
  }

  lemma FullRunOne(f: FullBucket, e: Event)
    ensures FullRun(f, [e]) == FullApply(f, e).0
  {
    assert [e][1..] == [];
  }

  lemma {:induction false} ClockConcat(last: int, a: seq<Event>, t: int, b: seq<Event>)
    requires ClockFrom(last, a) && ClockFrom(t, b) && last <= t
    requires forall i :: 0 <= i < |a| ==> a[i].Request? && a[i].now <= t
    ensures ClockFrom(last, a + b)
    decreases a
  {
    if a == [] {
      assert a + b == b;
      if b != [] { ClockEarlier(last, t, b); }
    } else {
      assert (a + b)[0] == a[0] && (a + b)[1..] == a[1..] + b;
      ClockConcat(a[0].now, a[1..], t, b);
    }
  }

  lemma {:induction false} ClockEarlier(last: int, t: int, events: seq<Event>)
    requires last <= t && ClockFrom(t, events)
    ensures ClockFrom(last, events)
    decreases events
  {
    if events != [] && events[0].SetLimit? {
      ClockEarlier(last, t, events[1..]);
    }
  }

  /** A negative estimate lets its amount through on top of the quota, one minute later than its own. */
  lemma NegativeEstimateBreaksQuota(rpm: int, tpm: int, x: int) returns (events: seq<Event>)
    requires rpm <= 0 < tpm < MAX_INT && -MAX_INT - 1 <= x < 0
    ensures SafeOr(events, tpm, x) && ClockFrom(0, events) && MinuteSum(Admitted(rpm, tpm, events), 1) == tpm + 1
  {
    hide Wrap, Sum, FullApply, BucketDecisions, Admissions;
    var e, ones, r := Request("", 0, x), Ones(tpm + 1, 1), TokenRecord(0, x);
    events := [e] + ones;
    OnesAre(tpm + 1, 1, 0);
    assert events[1..] == ones;
    AdmissionsAreHistory(Bucket(rpm, tpm, [], []), 0, events);
    var f, f1 := FullBucket(rpm, tpm, []), FullBucket(rpm, tpm, [r]);
    assert [] + [r] == [r];
    NothingCounted(-MINUTE, 0);
    NoWrap(x);
    Admits(f, e);
    OneCounted(r, 1 - MINUTE, 1);
    NoneCounted(r, 1, 1 + MINUTE);
    OnesAreAdmitted(f1, tpm + 1, 1);
  }

  lemma NoneCounted(r: TokenRecord, lo: int, hi: int)
    requires !InWindow(r, lo, hi)
    ensures Count([r], lo, hi) == Sum([r], lo, hi) == 0
  {
    assert [r][..0] == [];
  }

  /** An estimate that overflows the check is admitted on top of a full quota. */
  lemma OversizedEstimateBreaksQuota(rpm: int, tpm: int, x: int) returns (events: seq<Event>)
    requires rpm <= 0 < tpm < MAX_INT && MAX_INT - tpm < x <= MAX_INT
    ensures SafeOr(events, tpm, x) && ClockFrom(0, events) && MinuteSum(Admitted(rpm, tpm, events), 0) == tpm + x
  {
    hide Wrap, Sum, FullApply, BucketDecisions, Admissions, FullRun;
    var e, ones := Request("", 0, x), Ones(tpm, 0);
    events := ones + [e];
    OnesAre(tpm, 0, 0);
    assert ClockFrom(0, [e]) by { assert [e][1..] == []; }
    ClockConcat(0, ones, 0, [e]);
    AdmissionsAreHistory(Bucket(rpm, tpm, [], []), 0, events);
    var f := FullBucket(rpm, tpm, []);
    NothingCounted(-MINUTE, 0);
    NothingCounted(0, MINUTE);
    OnesAreAdmitted(f, tpm, 0);
    FullRunConcat(f, ones, [e]);
    var f1 := FullRun(f, ones);
    FullRunOne(f1, e);
    NoWrap(tpm + x);
    Admits(f1, e);
    SumStep(f1.history, TokenRecord(0, x));
  }

  /** Estimates between 0 and the largest integer less `tpm` are safe together. */
  lemma SafeEstimatesKeepQuota(rpm: int, tpm: int, x: int)
    requires 0 < tpm <= MAX_INT && 0 <= x <= MAX_INT - tpm
    ensures QuotaHolds(rpm, tpm, x)
  {
    forall events, last, a | SafeOr(events, tpm, x) && ClockFrom(last, events)
      ensures MinuteSum(Admitted(rpm, tpm, events), a) <= tpm
    {
      AdmissionsAreHistory(Bucket(rpm, tpm, [], []), last, events);
      TokenRun(FullBucket(rpm, tpm, []), last, events);
    }
  }

  /** Two requests are enough: the second is admitted on top of the first whenever the wrapped sum looks low. */
  lemma BothAdmitted(rpm: int, tpm: int, e0: Event, e1: Event)
    requires e0.Request? && e1.Request? && e0.now <= e1.now <= e0.now + MINUTE
    requires (rpm <= 0 || rpm >= 2) && 0 < tpm && Wrap(e0.estimate) <= tpm && Wrap(e0.estimate + e1.estimate) <= tpm
    ensures Admitted(rpm, tpm, [e0, e1]) == [TokenRecord(e0.now, e0.estimate), TokenRecord(e1.now, e1.estimate)]
  {
    hide Wrap, FullApply, Count, Sum, BucketDecisions, Admissions;
    var events := [e0, e1];
    assert events[1..] == [e1] && [e1][1..] == [];
    AdmissionsAreHistory(Bucket(rpm, tpm, [], []), e0.now, events);
    var r0, r1 := TokenRecord(e0.now, e0.estimate), TokenRecord(e1.now, e1.estimate);
    var f, f1 := FullBucket(rpm, tpm, []), FullBucket(rpm, tpm, [r0]);
    assert [] + [r0] == [r0] && [r0] + [r1] == [r0, r1];
    NothingCounted(e0.now - MINUTE, e0.now);
    Admits(f, e0);
    OneCounted(r0, e1.now - MINUTE, e1.now);
    Admits(f1, e1);
    FullRunOne(f1, e1);
  }

  lemma NothingCounted(lo: int, hi: int)
    ensures Count([], lo, hi) == Sum([], lo, hi) == 0
  {
  }

  lemma OneCounted(r: TokenRecord, lo: int, hi: int)
    requires InWindow(r, lo, hi)
    ensures Count([r], lo, hi) == 1 && Sum([r], lo, hi) == r.tokens
  {
    assert [r][..0] == [];
  }

  lemma SumOfTwo(r0: TokenRecord, r1: TokenRecord, a: int)
    ensures MinuteSum([r0, r1], a)
         == (if InWindow(r0, a, a + MINUTE) then r0.tokens else 0)
         + (if InWindow(r1, a, a + MINUTE) then r1.tokens else 0)
  {
    assert [r0, r1][..1] == [r0] && [r0][..0] == [];
    assert Sum([r0], a, a + MINUTE) == if InWindow(r0, a, a + MINUTE) then r0.tokens else 0;
  }

  /** Every negative estimate, which a negative `max_tokens` makes, lets `tpm + 1` tokens through in one minute. */
  lemma NegativeEstimateIsAdmitted(rpm: int, tpm: int, x: int, now: int)
    requires (rpm <= 0 || rpm >= 2) && 0 < tpm < MAX_INT && -MAX_INT - 1 <= x < 0
    ensures var admitted := Admitted(rpm, tpm, [Request("t", now, x), Request("t", now + 1, tpm + 1)]);
            |admitted| == 2 && MinuteSum(admitted, now + 1) == tpm + 1
  {
    NoWrap(x);
    NoWrap(x + (tpm + 1));
    BothAdmitted(rpm, tpm, Request("t", now, x), Request("t", now + 1, tpm + 1));
    SumOfTwo(TokenRecord(now, x), TokenRecord(now + 1, tpm + 1), now + 1);
  }

  /** Every estimate beyond the safe range is admitted on top of a full quota. */
  lemma OversizedEstimateIsAdmitted(rpm: int, tpm: int, x: int, now: int)
    requires (rpm <= 0 || rpm >= 2) && 0 < tpm <= MAX_INT && MAX_INT - tpm < x <= MAX_INT
    ensures var admitted := Admitted(rpm, tpm, [Request("t", now, tpm), Request("t", now, x)]);
            |admitted| == 2 && MinuteSum(admitted, now) == tpm + x > tpm
  {
    NoWrap(tpm);
    NoWrap(tpm + x);
    BothAdmitted(rpm, tpm, Request("t", now, tpm), Request("t", now, x));
    SumOfTwo(TokenRecord(now, tpm), TokenRecord(now, x), now);
  }

  /** Only requests, with any 64-bit estimates. */
  ghost predicate Requests64(events: seq<Event>) {
    forall i :: 0 <= i < |events| ==> events[i].Request? && Is64Bit(events[i].estimate)
  }

  /** No closed minute of any run holds more than `tpm` tokens, whatever the estimates. */
  ghost predicate QuotaAlwaysHolds(rpm: int, tpm: int) {
    forall events, last, a :: Requests64(events) && ClockFrom(last, events) ==>
      MinuteSum(Admitted(rpm, tpm, events), a) <= tpm
  }

  ghost predicate EachWithin(history: seq<TokenRecord>, tpm: int) {
    forall i :: 0 <= i < |history| ==> history[i].tokens <= tpm
  }

  lemma {:induction false} OneRecordOfQuota(history: seq<TokenRecord>, tpm: int, lo: int, hi: int)
    requires tpm > 0 && EachWithin(history, tpm) && Count(history, lo, hi) <= 1
    ensures Sum(history, lo, hi) <= tpm
    ensures Count(history, lo, hi) == 0 ==> Sum(history, lo, hi) == 0
  {
    if history != [] {
      OneRecordOfQuota(history[..|history| - 1], tpm, lo, hi);
    }
  }

  /** With one request a minute every admission was checked against an empty minute. */
  lemma {:induction false} OneAtATime(f: FullBucket, events: seq<Event>)
    requires f.rpm == 1 && f.tpm > 0 && Requests64(events) && EachWithin(f.history, f.tpm)
    ensures EachWithin(FullRun(f, events).history, f.tpm)
    decreases events
  {
    if events != [] {
      var e := events[0];
      if Count(f.history, e.now - MINUTE, e.now) == 0 {
        OneRecordOfQuota(f.history, f.tpm, e.now - MINUTE, e.now);
        NoWrap(e.estimate);
      }
      hide Wrap, Count, Sum;
      OneAtATime(FullApply(f, e).0, events[1..]);
    }
  }

  /** Without any restriction on the estimates, the quota holds over all runs if and only if the request limit is 1. */
  lemma UnrestrictedTokenBound(rpm: int, tpm: int)
    requires 0 < tpm < MAX_INT
    ensures QuotaAlwaysHolds(rpm, tpm) <==> rpm == 1
  {
    if rpm == 1 {
      forall events, last, a | Requests64(events) && ClockFrom(last, events)
        ensures MinuteSum(Admitted(rpm, tpm, events), a) <= tpm
      {
        var f := FullBucket(rpm, tpm, []);
        AdmissionsAreHistory(Bucket(rpm, tpm, [], []), last, events);
        RequestRun(f, last, events);
        OneAtATime(f, events);
        assert MinuteCount(FullRun(f, events).history, a) <= 1;
        OneRecordOfQuota(FullRun(f, events).history, tpm, a, a + MINUTE);
      }
    } else {
      var events := [Request("t", 0, -tpm), Request("t", 1, tpm + 1)];
      NegativeEstimateIsAdmitted(rpm, tpm, -tpm, 0);
      assert events[1..] == [events[1]] && [events[1]][1..] == [];
      assert Requests64(events) && ClockFrom(0, events);
    }
  }

  lemma TwoAreInOrder(e0: Event, e1: Event)
    requires e0.Request? && e1.Request? && e0.now <= e1.now
    ensures ClockFrom(e0.now, [e0, e1])
  {
    assert [e0, e1][1..] == [e1] && [e1][1..] == [];
  }

  /**
   Next to safe estimates, the token quota holds over all runs if and only if the estimate is safe too, or the
   request limit is 1.  A request limit above 1 is out of the way as long as the quota is below half the largest
   integer; without one any quota will do.
   */
  lemma TokenBoundIsExact(rpm: int, tpm: int, x: int)
    requires 0 < tpm < MAX_INT && Is64Bit(x) && (rpm <= 1 || 2 * tpm < MAX_INT)
    ensures QuotaHolds(rpm, tpm, x) <==> rpm == 1 || 0 <= x <= MAX_INT - tpm
  {
    if rpm == 1 {
      UnrestrictedTokenBound(rpm, tpm);
      forall events, last, a | SafeOr(events, tpm, x) && ClockFrom(last, events)
        ensures MinuteSum(Admitted(rpm, tpm, events), a) <= tpm
      {
        assert Requests64(events);
      }
    } else if 0 <= x <= MAX_INT - tpm {
      SafeEstimatesKeepQuota(rpm, tpm, x);
    } else {
      UnsafeEstimateBreaksQuota(rpm, tpm, x);
    }
  }

  lemma UnsafeEstimateBreaksQuota(rpm: int, tpm: int, x: int)
    requires 0 < tpm < MAX_INT && Is64Bit(x) && rpm != 1 && (rpm <= 0 || 2 * tpm < MAX_INT)
    requires x < 0 || x > MAX_INT - tpm
    ensures !QuotaHolds(rpm, tpm, x)
  {
    hide ClockFrom, MinuteSum, Admitted;
    if rpm <= 0 {
      if x < 0 {
        var events := NegativeEstimateBreaksQuota(rpm, tpm, x);
      } else {
        var events := OversizedEstimateBreaksQuota(rpm, tpm, x);
      }
    } else if x < 0 {
      var e0, e1 := Request("t", 0, x), Request("t", 1, tpm + 1);
      NegativeEstimateIsAdmitted(rpm, tpm, x, 0);
      TwoAreInOrder(e0, e1);
      assert SafeOr([e0, e1], tpm, x);
    } else {
      var e0, e1 := Request("t", 0, tpm), Request("t", 0, x);
      OversizedEstimateIsAdmitted(rpm, tpm, x, 0);
      TwoAreInOrder(e0, e1);
      assert SafeOr([e0, e1], tpm, x);
    }
  }
}
