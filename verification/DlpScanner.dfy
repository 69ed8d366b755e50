/**
 The inbound scanner's passes, one after the other over one vault session (internal/inbound/dlp.go).  The finder
 of a rule, a regular expression in the program, is an arbitrary function from texts to lists of matches.
 */
module DlpScanner {
  import opened Decimal
  import opened Occurrences
  import opened Replacement
  import opened Vault

  datatype Rule = Rule(find: string -> seq<string>, valid: string -> bool)

  /** No finder returns an empty match. */
  ghost predicate Finders(rules: seq<Rule>) {
    forall k, text :: 0 <= k < |rules| ==> NonEmpty(rules[k].find(text))
  }

  /** The session's maps, the text, and what each pass reported. */
  datatype Scanned = Scanned(mapping: Mapping, text: string, reports: seq<seq<Substitution>>)

  /** One pass per rule, over the text the passes before it have left. */
  function Passes(m: Mapping, payload: string, rules: seq<Rule>): (out: Scanned)
    requires Finders(rules)
    ensures |out.reports| == |rules|
    decreases |rules|
  {
    if rules == [] then Scanned(m, payload, [])
    else
      var n := |rules| - 1;
      var front := Passes(m, payload, rules[..n]);
      var out := Redact(Pass(front.mapping, front.text, {}, []), rules[n].find(front.text), rules[n].valid);
      Scanned(out.mapping, out.text, front.reports + [out.done])
  }

  // ---------------------------------------------------------------------------------------------
  // No secret of any pass remains
  // ---------------------------------------------------------------------------------------------

  lemma HandleCreatesNone(p: Pass, m: string, valid: string -> bool, y: string)
    requires |m| > 0 && Inverse(p.mapping) && Plain(y) && !Contains(p.text, y)
    ensures Inverse(Handle(p, m, valid).mapping) && !Contains(Handle(p, m, valid).text, y)
  {
    if m !in p.seen && valid(m) {
      StoreKeepsInverse(p.mapping, m);
      StoredIsPseudonym(p.mapping, m);
      hide Inverse, Store, Pseudonym, ReplaceAll, Contains;
      ReplaceCreatesNone(p.text, m, Store(p.mapping, m).1, y);
    }
  }

  lemma {:induction false} RedactCreatesNone(p: Pass, matches: seq<string>, valid: string -> bool, y: string)
    requires NonEmpty(matches) && Inverse(p.mapping) && Plain(y) && !Contains(p.text, y)
    ensures !Contains(Redact(p, matches, valid).text, y)
    decreases matches
  {
    hide Handle, Contains, Plain, Inverse;
    if matches != [] {
      HandleCreatesNone(p, matches[0], valid, y);
      RedactCreatesNone(Handle(p, matches[0], valid), matches[1..], valid, y);
    }
  }

  lemma {:induction false} MapsStayInverse(m: Mapping, payload: string, rules: seq<Rule>)
    requires Inverse(m) && Finders(rules)
    ensures Inverse(Passes(m, payload, rules).mapping)
    decreases |rules|
  {
    hide Inverse;
    if rules != [] {
      var n := |rules| - 1;
      var front := Passes(m, payload, rules[..n]);
      MapsStayInverse(m, payload, rules[..n]);
      NoSecretRemains(front.mapping, front.text, rules[n].find(front.text), rules[n].valid);
    }
  }

  /** A valid plain match of any pass is gone when all passes are over. */
  lemma {:induction false} NoSecretOfAnyPassRemains(m: Mapping, payload: string, rules: seq<Rule>, k: nat, i: nat)
    requires Inverse(m) && Finders(rules) && k < |rules|
    requires i < |rules[k].find(Passes(m, payload, rules[..k]).text)|
    ensures var secret := rules[k].find(Passes(m, payload, rules[..k]).text)[i];
            rules[k].valid(secret) && Plain(secret) ==> !Contains(Passes(m, payload, rules).text, secret)
    decreases |rules|
  {
    hide Inverse, Plain, Contains, Redact;
    var n := |rules| - 1;
    var front := Passes(m, payload, rules[..n]);
    var matches := rules[n].find(front.text);
    MapsStayInverse(m, payload, rules[..n]);
    if k == n {
      NoSecretRemains(front.mapping, front.text, matches, rules[n].valid);
    } else {
      assert rules[..n][..k] == rules[..k] && rules[..n][k] == rules[k];
      NoSecretOfAnyPassRemains(m, payload, rules[..n], k, i);
      var secret := rules[k].find(Passes(m, payload, rules[..k]).text)[i];
      if rules[k].valid(secret) && Plain(secret) {
        RedactCreatesNone(Pass(front.mapping, front.text, {}, []), matches, rules[n].valid, secret);
      }
    }
  }

  // ---------------------------------------------------------------------------------------------
  // Undoing all passes
  // ---------------------------------------------------------------------------------------------

  /** Undoes the passes, last one first. */
  function RestoreAll(m: Mapping, text: string, reports: seq<seq<Substitution>>): string
    decreases |reports|
  {
    if reports == [] then text
    else
      var n := |reports| - 1;
      RestoreAll(m, Restore(m, text, reports[n]), reports[..n])
  }

  ghost predicate AllResolve(m: Mapping, reports: seq<seq<Substitution>>) {
    forall k :: 0 <= k < |reports| ==> Resolves(m, reports[k])
  }

  ghost predicate Grows(m: Mapping, m': Mapping) {
    forall q :: q in m.reverse ==> q in m'.reverse && m'.reverse[q] == m.reverse[q]
  }

  lemma {:induction false} RedactGrows(p: Pass, matches: seq<string>, valid: string -> bool)
    requires NonEmpty(matches) && Inverse(p.mapping)
    ensures Grows(p.mapping, Redact(p, matches, valid).mapping) && Inverse(Redact(p, matches, valid).mapping)
    decreases matches
  {
    hide Store, Inverse;
    if matches != [] {
      if matches[0] !in p.seen && valid(matches[0]) {
        StoreKeepsInverse(p.mapping, matches[0]);
      }
      RedactGrows(Handle(p, matches[0], valid), matches[1..], valid);
    }
  }

  /** Some pass up to here has reported the pseudonym. */
  ghost predicate Reported(reports: seq<seq<Substitution>>, q: string) {
    exists k :: 0 <= k < |reports| && Uses(reports[k], q)
  }

  /** What one pass establishes, from the text before it. */
  lemma OnePass(m: Mapping, text: string, matches: seq<string>, valid: string -> bool)
    requires NonEmpty(matches) && Inverse(m)
    ensures var out := Redact(Pass(m, text, {}, []), matches, valid);
            && Inverse(out.mapping) && Grows(m, out.mapping)
            && Resolves(out.mapping, out.done)
            && AddsOnly(out.text, out.done, text) && Undoable(out.text, out.done, text)
  {
    var start := Pass(m, text, {}, []);
    RedactGrows(start, matches, valid);
    RedactIsTraced(start, text, matches, valid);
  }

  /** The only bracketed texts that all passes add are the pseudonyms they report, and the vault resolves those. */
  lemma {:induction false} AllTraced(m: Mapping, payload: string, rules: seq<Rule>)
    requires Inverse(m) && Finders(rules)
    ensures var out := Passes(m, payload, rules);
            && Inverse(out.mapping) && AllResolve(out.mapping, out.reports)
            && forall q :: Bracketed(q) && !Contains(payload, q) && !Reported(out.reports, q) ==> !Contains(out.text, q)
    decreases |rules|
  {
    hide Inverse, Bracketed, Contains, Redact, Uses;
    if rules != [] {
      var n := |rules| - 1;
      var front, out := Passes(m, payload, rules[..n]), Passes(m, payload, rules);
      AllTraced(m, payload, rules[..n]);
      OnePass(front.mapping, front.text, rules[n].find(front.text), rules[n].valid);
      forall q | Bracketed(q) && !Contains(payload, q) && !Reported(out.reports, q) ensures !Contains(out.text, q) {
        ReportedBefore(out.reports, n, q);
        assert !Uses(out.reports[n], q) && out.reports[..n] == front.reports;
      }
    }
  }

  lemma ReportedBefore(reports: seq<seq<Substitution>>, n: nat, q: string)
    requires n <= |reports|
    ensures Reported(reports[..n], q) ==> Reported(reports, q)
  {
    if Reported(reports[..n], q) {
      var k :| 0 <= k < n && Uses(reports[..n][k], q);
      assert Uses(reports[k], q);
    }
  }

  /** No pseudonym is reported by two passes, and none stands in the payload. */
  ghost predicate Untangled(payload: string, reports: seq<seq<Substitution>>) {
    && (forall k :: 0 <= k < |reports| ==> FreeOf(payload, reports[k]))
    && forall j, k, q :: 0 <= j < k < |reports| && Uses(reports[j], q) ==> !Uses(reports[k], q)
  }

  /** Then each pass found a text free of the pseudonyms it put in. */
  lemma FreshEachPass(m: Mapping, payload: string, rules: seq<Rule>)
    requires Inverse(m) && Finders(rules) && rules != [] && Untangled(payload, Passes(m, payload, rules).reports)
    ensures FreeOf(Passes(m, payload, rules[..|rules| - 1]).text, Passes(m, payload, rules).reports[|rules| - 1])
  {
    hide Inverse, Bracketed, Contains, Redact, Passes;
    var n := |rules| - 1;
    var front, out := Passes(m, payload, rules[..n]), Passes(m, payload, rules);
    AllTraced(m, payload, rules[..n]);
    AllTraced(m, payload, rules);
    LastReport(m, payload, rules);
    var last := out.reports[n];
    forall i | 0 <= i < |last| ensures !Contains(front.text, last[i].pseudonym) {
      var q := last[i].pseudonym;
      assert Uses(last, q);
      ResolvedIsBracketed(out.mapping, q);
      assert forall j :: 0 <= j < n ==> front.reports[j] == out.reports[j];
      assert !Reported(front.reports, q);
    }
  }

  lemma LastReport(m: Mapping, payload: string, rules: seq<Rule>)
    requires Finders(rules) && rules != []
    ensures var front, out := Passes(m, payload, rules[..|rules| - 1]), Passes(m, payload, rules);
            out.reports[..|rules| - 1] == front.reports
  {
  }

  lemma ResolvedIsBracketed(m: Mapping, q: string)
    requires Inverse(m) && q in m.reverse
    ensures Bracketed(q)
  {
    hide Pseudonym;
    var n: nat :| 1 <= n <= |m.forward| && q == Pseudonym(n);
    PseudonymIsBracketed(n);
  }

  /** Undoing the passes backwards, through any vault that resolves what they reported, gives the payload back. */
  lemma {:induction false} PassesAreUndone(m: Mapping, payload: string, rules: seq<Rule>, v: Mapping)
    requires Inverse(m) && Finders(rules) && Untangled(payload, Passes(m, payload, rules).reports)
    requires AllResolve(v, Passes(m, payload, rules).reports)
    ensures RestoreAll(v, Passes(m, payload, rules).text, Passes(m, payload, rules).reports) == payload
    decreases |rules|
  {
    hide Inverse, Redact, FreeOf, Uses, Resolves, Restore, Passes;
    LengthOfNone(m, payload);
    if rules != [] {
      var n := |rules| - 1;
      var front, out := Passes(m, payload, rules[..n]), Passes(m, payload, rules);
      LastReport(m, payload, rules);
      assert forall k :: 0 <= k < n ==> front.reports[k] == out.reports[k];
      FreshEachPass(m, payload, rules);
      LastPassUndone(m, payload, rules, v);
      PassesAreUndone(m, payload, rules[..n], v);
    }
  }

  lemma LengthOfNone(m: Mapping, payload: string)
    ensures Passes(m, payload, []) == Scanned(m, payload, [])
  {
  }

  lemma LastPassUndone(m: Mapping, payload: string, rules: seq<Rule>, v: Mapping)
    requires Inverse(m) && Finders(rules) && rules != []
    requires var front, out := Passes(m, payload, rules[..|rules| - 1]), Passes(m, payload, rules);
             FreeOf(front.text, out.reports[|rules| - 1]) && Resolves(v, out.reports[|rules| - 1])
    ensures var front, out := Passes(m, payload, rules[..|rules| - 1]), Passes(m, payload, rules);
            Restore(v, out.text, out.reports[|rules| - 1]) == front.text
  {
    hide Inverse, Redact, FreeOf, Resolves, Restore;
    var n := |rules| - 1;
    var front := Passes(m, payload, rules[..n]);
    MapsStayInverse(m, payload, rules[..n]);
    OnePass(front.mapping, front.text, rules[n].find(front.text), rules[n].valid);
  }

  /** In particular through the vault the scan leaves behind. */
  lemma ScanRoundTrip(m: Mapping, payload: string, rules: seq<Rule>)
    requires Inverse(m) && Finders(rules)
    ensures var out := Passes(m, payload, rules);
            Untangled(payload, out.reports) ==> RestoreAll(out.mapping, out.text, out.reports) == payload
  {
    hide Inverse, Redact, Passes, Contains, Bracketed;
    AllTraced(m, payload, rules);
    if Untangled(payload, Passes(m, payload, rules).reports) {
      PassesAreUndone(m, payload, rules, Passes(m, payload, rules).mapping);
    }
  }

  // ---------------------------------------------------------------------------------------------
  // Plain matches never tangle
  // ---------------------------------------------------------------------------------------------

  /** What a finder returns stands in the text, as for any regular expression. */
  ghost predicate FindsInText(rules: seq<Rule>) {
    forall k, text, i :: 0 <= k < |rules| && 0 <= i < |rules[k].find(text)| ==> Contains(text, rules[k].find(text)[i])
  }

  /** Every validated match of the run is plain. */
  ghost predicate PlainRun(m: Mapping, payload: string, rules: seq<Rule>)
    requires Finders(rules)
  {
    forall k :: 0 <= k < |rules| ==> PlainMatches(rules[k], Passes(m, payload, rules[..k]).text)
  }

  ghost predicate PlainMatches(rule: Rule, text: string) {
    forall i :: 0 <= i < |rule.find(text)| && rule.valid(rule.find(text)[i]) ==> Plain(rule.find(text)[i])
  }

  /** What a pass reports are validated matches. */
  lemma {:induction false} ReportedAreMatches(p: Pass, matches: seq<string>, valid: string -> bool)
    requires NonEmpty(matches)
    ensures var out := Redact(p, matches, valid);
            && p.done <= out.done
            && forall x :: |p.done| <= x < |out.done| ==> out.done[x].secret in matches && valid(out.done[x].secret)
    decreases matches
  {
    hide Store, ReplaceAll;
    if matches != [] {
      var next := Handle(p, matches[0], valid);
      ReportedAreMatches(next, matches[1..], valid);
      assert p.done <= next.done;
    }
  }

  /** The first passes of a run are a run. */
  lemma {:induction false} FirstReports(m: Mapping, payload: string, rules: seq<Rule>, k: nat)
    requires Finders(rules) && k <= |rules|
    ensures Passes(m, payload, rules[..k]).reports == Passes(m, payload, rules).reports[..k]
    decreases |rules|
  {
    hide Redact;
    if k == |rules| {
      assert rules[..k] == rules;
    } else {
      var n := |rules| - 1;
      assert rules[..n][..k] == rules[..k];
      FirstReports(m, payload, rules[..n], k);
    }
  }

  /** A report of pass `k` is a validated match of the text the pass found. */
  lemma ReportIsMatch(m: Mapping, payload: string, rules: seq<Rule>, k: nat, x: nat)
    requires Finders(rules) && k < |rules| && x < |Passes(m, payload, rules).reports[k]|
    ensures var secret := Passes(m, payload, rules).reports[k][x].secret;
            secret in rules[k].find(Passes(m, payload, rules[..k]).text) && rules[k].valid(secret)
  {
    hide Redact, Passes;
    FirstReports(m, payload, rules, k + 1);
    var front := Passes(m, payload, rules[..k]);
    ReportedAreMatches(Pass(front.mapping, front.text, {}, []), rules[k].find(front.text), rules[k].valid);
    LastPass(m, payload, rules, k);
  }

  lemma LastPass(m: Mapping, payload: string, rules: seq<Rule>, k: nat)
    requires Finders(rules) && k < |rules|
    ensures var front := Passes(m, payload, rules[..k]);
            Passes(m, payload, rules[..k + 1]).reports[k]
            == Redact(Pass(front.mapping, front.text, {}, []), rules[k].find(front.text), rules[k].valid).done
  {
    hide Redact;
    assert rules[..k + 1][..k] == rules[..k];
  }

  /** A secret that one pass reported is not there any more for a later one to find. */
  lemma NotFoundAgain(m: Mapping, payload: string, rules: seq<Rule>, j: nat, k: nat, secret: string)
    requires Inverse(m) && Finders(rules) && FindsInText(rules) && PlainRun(m, payload, rules) && j < k < |rules|
    requires rules[j].valid(secret) && secret in rules[j].find(Passes(m, payload, rules[..j]).text)
    ensures secret !in rules[k].find(Passes(m, payload, rules[..k]).text)
  {
    hide Inverse, Plain, Contains, Passes;
    assert PlainMatches(rules[j], Passes(m, payload, rules[..j]).text);
    assert rules[..k][..j] == rules[..j] && rules[..k][j] == rules[j];
    var i :| 0 <= i < |rules[j].find(Passes(m, payload, rules[..j]).text)|
      && rules[j].find(Passes(m, payload, rules[..j]).text)[i] == secret;
    NoSecretOfAnyPassRemains(m, payload, rules[..k], j, i);
  }

  lemma PlainRunsAreUntangled(m: Mapping, payload: string, rules: seq<Rule>)
    requires Inverse(m) && Finders(rules) && FindsInText(rules) && PlainRun(m, payload, rules)
    requires forall n: nat :: n >= 1 ==> !Contains(payload, Pseudonym(n))
    ensures Untangled(payload, Passes(m, payload, rules).reports)
  {
    hide Contains, Pseudonym, Passes, PlainRun, FindsInText, Bracketed;
    var out := Passes(m, payload, rules);
    AllTraced(m, payload, rules);
    forall k | 0 <= k < |out.reports| ensures FreeOf(payload, out.reports[k]) {
      assert Resolves(out.mapping, out.reports[k]);
    }
    hide Inverse, FreeOf;
    forall j, k, q | 0 <= j < k < |out.reports| && Uses(out.reports[j], q) ensures !Uses(out.reports[k], q) {
      var x :| 0 <= x < |out.reports[j]| && out.reports[j][x].pseudonym == q;
      assert Resolves(out.mapping, out.reports[j]) && Resolves(out.mapping, out.reports[k]);
      ReportIsMatch(m, payload, rules, j, x);
      NotFoundAgain(m, payload, rules, j, k, out.mapping.reverse[q]);
      forall y | 0 <= y < |out.reports[k]| ensures out.reports[k][y].pseudonym != q {
        ReportIsMatch(m, payload, rules, k, y);
      }
    }
  }

  /** For plain matches the payload need only hold no pseudonym text: undoing all passes restores it. */
  lemma PlainScanRoundTrip(m: Mapping, payload: string, rules: seq<Rule>)
    requires Inverse(m) && Finders(rules) && FindsInText(rules) && PlainRun(m, payload, rules)
    requires forall n: nat :: n >= 1 ==> !Contains(payload, Pseudonym(n))
    ensures var out := Passes(m, payload, rules);
            RestoreAll(out.mapping, out.text, out.reports) == payload
  {
    hide Inverse, Contains, Pseudonym, Passes, Untangled;
    PlainRunsAreUntangled(m, payload, rules);
    ScanRoundTrip(m, payload, rules);
  }

  // ---------------------------------------------------------------------------------------------
  // Sessions of different tenants
  // ---------------------------------------------------------------------------------------------

  /** The vault session of a request. */
  function SessionKey(tenant: string, session: string): string {
    if session != "" then tenant + ":" + session else tenant
  }

  /** The tenant's sessions are not those of any other tenant whose name holds no ':'. */
  ghost predicate Isolated(tenant: string) {
    forall session, other, theirs ::
      ':' !in other && SessionKey(tenant, session) == SessionKey(other, theirs) ==> other == tenant && theirs == session
  }

  lemma KeyOfColonFree(tenant: string, session: string, other: string, theirs: string)
    requires ':' !in tenant && ':' !in other && SessionKey(tenant, session) == SessionKey(other, theirs)
    ensures other == tenant && theirs == session
  {
    assert session != "" ==> SessionKey(tenant, session)[|tenant|] == ':';
    assert theirs != "" ==> SessionKey(other, theirs)[|other|] == ':';
    if session != "" && theirs != "" {
      SplitFirst(tenant, session, other, theirs, ':');
    }
  }

  /** A tenant shares no session with such a tenant if and only if its own name holds no ':' either. */
  lemma IsolationIsExact(tenant: string)
    ensures Isolated(tenant) <==> ':' !in tenant
  {
    if ':' in tenant {
      var i := FirstColon(tenant);
      var other, theirs := tenant[..i], tenant[i + 1..] + ":s";
      assert SessionKey(tenant, "s") == SessionKey(other, theirs) by {
        assert tenant == other + ":" + tenant[i + 1..];
      }
      assert |other| < |tenant|;
    } else {
      forall session, other, theirs | ':' !in other && SessionKey(tenant, session) == SessionKey(other, theirs)
        ensures other == tenant && theirs == session
      {
        KeyOfColonFree(tenant, session, other, theirs);
      }
    }
  }

  lemma FirstColon(s: string) returns (i: nat)
    requires ':' in s
    ensures i < |s| && s[i] == ':' && ':' !in s[..i]
  {
    i := 0;
    while s[i] != ':'
      invariant i < |s| && ':' in s[i..] && ':' !in s[..i]
      decreases |s| - i
    {
      i := i + 1;
    }
  }
}
