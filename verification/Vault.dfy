/**
 The session vault and the redaction pass of the inbound DLP scanner (internal/inbound/dlp.go).  The list of
 matches of a pass is an input, as is the validator.
 */
module Vault {
  import opened Occurrences
  import opened Decimal
  import opened Replacement

  /** "[REDACTED_SECRET_n]". */
  function Pseudonym(n: nat): string {
    "[REDACTED_SECRET_" + Print(n) + "]"
  }

  lemma PseudonymIsInjective(m: nat, n: nat)
    requires Pseudonym(m) == Pseudonym(n)
    ensures m == n
  {
    hide Print;
    var head := "[REDACTED_SECRET_";
    assert Pseudonym(m)[17..|Pseudonym(m)| - 1] == Print(m) && Pseudonym(n)[17..|Pseudonym(n)| - 1] == Print(n);
    PrintIsInjective(m, n);
  }

  lemma PseudonymIsBracketed(n: nat)
    ensures Bracketed(Pseudonym(n))
  {
    hide Print, Value;
    PrintRoundTrip(n);
    var p := Pseudonym(n);
    assert forall i :: 17 <= i < |p| - 1 ==> p[i] == Print(n)[i - 17];
  }

  // ---------------------------------------------------------------------------------------------
  // One session
  // ---------------------------------------------------------------------------------------------

  /** The two directions of a session's substitutions. */
  datatype Mapping = Mapping(forward: map<string, string>, reverse: map<string, string>)

  const EMPTY := Mapping(map[], map[])

  /** The maps are inverse to each other, and pseudonyms are numbered from 1 to the number of secrets. */
  ghost predicate Inverse(m: Mapping) {
    && (forall raw :: raw in m.forward ==> m.forward[raw] in m.reverse && m.reverse[m.forward[raw]] == raw)
    && (forall p :: p in m.reverse ==> m.reverse[p] in m.forward && m.forward[m.reverse[p]] == p)
    && (forall p :: p in m.reverse ==> exists n: nat :: 1 <= n <= |m.forward| && p == Pseudonym(n))
  }

  /** The pseudonym of a secret, made up on first use. */
  function Store(m: Mapping, raw: string): (Mapping, string) {
    if raw in m.forward then (m, m.forward[raw])
    else
      var p := Pseudonym(|m.forward| + 1);
      (Mapping(m.forward[raw := p], m.reverse[p := raw]), p)
  }

  /** Storing keeps the maps inverse, forgets nothing, and answers with a pseudonym that resolves to the secret. */
  lemma StoreKeepsInverse(m: Mapping, raw: string)
    requires Inverse(m)
    ensures var (m', p) := Store(m, raw);
            && Inverse(m')
            && raw in m'.forward && m'.forward[raw] == p && p in m'.reverse && m'.reverse[p] == raw
            && Bracketed(p)
            && (forall q :: q in m.reverse ==> q in m'.reverse && m'.reverse[q] == m.reverse[q])
            && (forall r :: r in m.forward ==> r in m'.forward && m'.forward[r] == m.forward[r])
  {
    hide Pseudonym;
    var n := |m.forward|;
    if raw in m.forward {
      var k: nat :| 1 <= k <= n && m.forward[raw] == Pseudonym(k);
      PseudonymIsBracketed(k);
    } else {
      var p := Pseudonym(n + 1);
      PseudonymIsBracketed(n + 1);
      forall q | q in m.reverse ensures q != p {
        var k: nat :| 1 <= k <= n && q == Pseudonym(k);
        if q == p {
          PseudonymIsInjective(k, n + 1);
        }
      }
      var m' := Store(m, raw).0;
      assert |m'.forward| == n + 1;
      forall q | q in m'.reverse ensures exists k: nat :: 1 <= k <= n + 1 && q == Pseudonym(k) {
        if q == p {
          assert 1 <= n + 1 <= n + 1 && q == Pseudonym(n + 1);
        } else {
          var k: nat :| 1 <= k <= n && q == Pseudonym(k);
          assert 1 <= k <= n + 1 && q == Pseudonym(k);
        }
      }
    }
  }

  /** The session after a list of stores. */
  function StoreAll(m: Mapping, raws: seq<string>): Mapping
    decreases raws
  {
    if raws == [] then m else StoreAll(Store(m, raws[0]).0, raws[1..])
  }

  /** Under any sequence of stores the maps stay inverse, and a pseudonym once given never changes. */
  lemma {:induction false} StoresKeepInverse(m: Mapping, raws: seq<string>)
    requires Inverse(m)
    ensures Inverse(StoreAll(m, raws))
    ensures forall r :: r in m.forward ==>
              r in StoreAll(m, raws).forward && StoreAll(m, raws).forward[r] == m.forward[r]
    decreases raws
  {
    hide Inverse, Store;
    if raws != [] {
      StoreKeepsInverse(m, raws[0]);
      StoresKeepInverse(Store(m, raws[0]).0, raws[1..]);
    }
  }

  // ---------------------------------------------------------------------------------------------
  // One redaction pass
  // ---------------------------------------------------------------------------------------------

  datatype Substitution = Substitution(secret: string, pseudonym: string)

  /** The state of a pass: the session's maps, the text so far, the matches seen, the substitutions reported. */
  datatype Pass = Pass(mapping: Mapping, text: string, seen: set<string>, done: seq<Substitution>)

  /** What the pass does with one match. */
  function Handle(p: Pass, m: string, valid: string -> bool): Pass
    requires |m| > 0
  {
    if m in p.seen then p
    else if !valid(m) then p.(seen := p.seen + {m})
    else
      var (mapping, pseudonym) := Store(p.mapping, m);
      Pass(mapping, ReplaceAll(p.text, m, pseudonym), p.seen + {m}, p.done + [Substitution(m, pseudonym)])
  }

  ghost predicate NonEmpty(matches: seq<string>) {
    forall i :: 0 <= i < |matches| ==> |matches[i]| > 0
  }

  /** The pass over a list of matches. */
  function Redact(p: Pass, matches: seq<string>, valid: string -> bool): Pass
    requires NonEmpty(matches)
    decreases matches
  {
    if matches == [] then p else Redact(Handle(p, matches[0], valid), matches[1..], valid)
  }

  /** A secret that overlaps no pseudonym: neither contains the other, and they do not share an end. */
  ghost predicate Plain(y: string) {
    |y| > 0 && forall n: nat :: n >= 1 ==> Apart(y, Pseudonym(n))
  }

  /** What a pass keeps: inverse maps, and every plain secret handled so far is gone from the text. */
  ghost predicate PassOk(p: Pass, valid: string -> bool) {
    && Inverse(p.mapping)
    && forall y :: y in p.seen && valid(y) && Plain(y) ==> !Contains(p.text, y)
  }

  lemma StoredIsPseudonym(m: Mapping, raw: string)
    requires Inverse(m)
    ensures exists n: nat :: n >= 1 && Store(m, raw).1 == Pseudonym(n)
  {
    if raw in m.forward {
      var n: nat :| 1 <= n <= |m.forward| && m.forward[raw] == Pseudonym(n);
      assert n >= 1 && Store(m, raw).1 == Pseudonym(n);
    } else {
      assert |m.forward| + 1 >= 1 && Store(m, raw).1 == Pseudonym(|m.forward| + 1);
    }
  }

  lemma HandleIsOk(p: Pass, m: string, valid: string -> bool)
    requires |m| > 0 && PassOk(p, valid)
    ensures PassOk(Handle(p, m, valid), valid) && m in Handle(p, m, valid).seen && p.seen <= Handle(p, m, valid).seen
  {
    if m !in p.seen && valid(m) {
      var (mapping, pseudonym) := Store(p.mapping, m);
      StoreKeepsInverse(p.mapping, m);
      StoredIsPseudonym(p.mapping, m);
      hide Inverse, Store, Pseudonym, ReplaceAll, Contains;
      var text := ReplaceAll(p.text, m, pseudonym);
      forall y | y in p.seen + {m} && valid(y) && Plain(y) ensures !Contains(text, y) {
        if y == m {
          ReplaceRemoves(p.text, m, pseudonym);
        } else {
          ReplaceCreatesNone(p.text, m, pseudonym, y);
        }
      }
    }
  }

  lemma {:induction false} RedactIsOk(p: Pass, matches: seq<string>, valid: string -> bool)
    requires NonEmpty(matches) && PassOk(p, valid)
    ensures PassOk(Redact(p, matches, valid), valid)
    ensures forall i :: 0 <= i < |matches| ==> matches[i] in Redact(p, matches, valid).seen
    ensures p.seen <= Redact(p, matches, valid).seen
    decreases matches
  {
    hide PassOk, Handle;
    if matches != [] {
      HandleIsOk(p, matches[0], valid);
      RedactIsOk(Handle(p, matches[0], valid), matches[1..], valid);
      assert forall i :: 1 <= i < |matches| ==> matches[i] == matches[1..][i - 1];
    }
  }

  /** After a pass no validated plain secret remains in the payload, and the vault's maps are still inverse. */
  lemma NoSecretRemains(m: Mapping, payload: string, matches: seq<string>, valid: string -> bool)
    requires Inverse(m) && NonEmpty(matches)
    ensures var out := Redact(Pass(m, payload, {}, []), matches, valid);
            && Inverse(out.mapping)
            && forall i :: 0 <= i < |matches| && valid(matches[i]) && Plain(matches[i]) ==>
                 !Contains(out.text, matches[i])
  {
    RedactIsOk(Pass(m, payload, {}, []), matches, valid);
  }

  // ---------------------------------------------------------------------------------------------
  // What a pass does, exactly
  // ---------------------------------------------------------------------------------------------

  /** The valid matches, each once, in the order in which they are first met. */
  function FirstValid(matches: seq<string>, valid: string -> bool): (secrets: seq<string>)
    ensures forall x :: x in secrets <==> x in matches && valid(x)
    ensures forall i, j :: 0 <= i < j < |secrets| ==> secrets[i] != secrets[j]
  {
    if matches == [] then []
    else
      var n := |matches| - 1;
      var before := FirstValid(matches[..n], valid);
      assert matches == matches[..n] + [matches[n]];
      if valid(matches[n]) && matches[n] !in before then before + [matches[n]] else before
  }

  function Secrets(subs: seq<Substitution>): (secrets: seq<string>)
    ensures |secrets| == |subs|
  {
    seq(|subs|, i requires 0 <= i < |subs| => subs[i].secret)
  }

  /** The substitutions carried out one after the other. */
  function ReplaceInOrder(text: string, subs: seq<Substitution>): string {
    if subs == [] then text
    else
      var n := |subs| - 1;
      var before := ReplaceInOrder(text, subs[..n]);
      if subs[n].secret == "" then before else ReplaceAll(before, subs[n].secret, subs[n].pseudonym)
  }

  lemma {:induction false} RedactOneMore(p: Pass, matches: seq<string>, m: string, valid: string -> bool)
    requires NonEmpty(matches + [m])
    ensures |m| > 0 && NonEmpty(matches)
    ensures Redact(p, matches + [m], valid) == Handle(Redact(p, matches, valid), m, valid)
    decreases matches
  {
    hide Handle;
    var all := matches + [m];
    assert all[|matches|] == m && forall i :: 0 <= i < |matches| ==> matches[i] == all[i];
    if matches == [] {
      assert all[1..] == [] && all[0] == m;
    } else {
      assert all[0] == matches[0] && all[1..] == matches[1..] + [m];
      RedactOneMore(Handle(p, matches[0], valid), matches[1..], m, valid);
    }
  }

  lemma {:induction false} StoreOneMore(m: Mapping, raws: seq<string>, raw: string)
    ensures StoreAll(m, raws + [raw]) == Store(StoreAll(m, raws), raw).0
    decreases raws
  {
    hide Store;
    var all := raws + [raw];
    if raws == [] {
      assert all[0] == raw && all[1..] == [];
    } else {
      assert all[0] == raws[0] && all[1..] == raws[1..] + [raw];
      StoreOneMore(Store(m, raws[0]).0, raws[1..], raw);
    }
  }

  /** Every substitution is under the pseudonym the session has for its secret. */
  ghost predicate UnderPseudonyms(m: Mapping, subs: seq<Substitution>) {
    forall i :: 0 <= i < |subs| ==> subs[i].secret in m.forward && m.forward[subs[i].secret] == subs[i].pseudonym
  }

  /** The state of a pass is what the matches so far make of the session and the payload. */
  ghost predicate Outcome(m: Mapping, payload: string, matches: seq<string>, valid: string -> bool, out: Pass) {
    && Secrets(out.done) == FirstValid(matches, valid)
    && out.mapping == StoreAll(m, FirstValid(matches, valid))
    && UnderPseudonyms(out.mapping, out.done)
    && out.text == ReplaceInOrder(payload, out.done)
    && forall x :: x in out.seen <==> x in matches
  }

  /**
   The whole outcome of a pass: it reports the valid matches, each once and in order, under the pseudonyms the
   session has for them after storing them in that order, and the text is the payload with these substitutions
   carried out.  Matches that are not valid change nothing.
   */
  lemma {:induction false} PassIsExact(m: Mapping, payload: string, matches: seq<string>, valid: string -> bool)
    requires Inverse(m) && NonEmpty(matches)
    ensures Outcome(m, payload, matches, valid, Redact(Pass(m, payload, {}, []), matches, valid))
    decreases |matches|
  {
    var start := Pass(m, payload, {}, []);
    if matches == [] {
      assert Redact(start, matches, valid) == start;
    } else {
      var n := |matches| - 1;
      var front, x := matches[..n], matches[n];
      assert matches == front + [x];
      hide Outcome, Handle, Redact;
      RedactOneMore(start, front, x, valid);
      PassIsExact(m, payload, front, valid);
      HandleExactly(m, payload, front, x, Redact(start, front, valid), valid);
    }
  }

  lemma HandleExactly(m: Mapping, payload: string, front: seq<string>, x: string, p: Pass, valid: string -> bool)
    requires |x| > 0 && Inverse(m) && Outcome(m, payload, front, valid, p)
    ensures Outcome(m, payload, front + [x], valid, Handle(p, x, valid))
  {
    FirstValidStep(front, x, valid);
    hide FirstValid, ReplaceAll, Inverse, Store, ReplaceInOrder, StoreAll, Secrets, UnderPseudonyms;
    if x !in p.seen && valid(x) {
      var sub := Substitution(x, Store(p.mapping, x).1);
      StoresKeepInverse(m, FirstValid(front, valid));
      StoreOneMore(m, FirstValid(front, valid), x);
      StillUnder(p.mapping, p.done, x);
      SubstitutionStep(payload, p.done, sub);
    }
  }

  lemma FirstValidStep(front: seq<string>, x: string, valid: string -> bool)
    ensures FirstValid(front + [x], valid)
         == if valid(x) && x !in front then FirstValid(front, valid) + [x] else FirstValid(front, valid)
  {
    assert (front + [x])[..|front|] == front;
  }

  lemma SubstitutionStep(text: string, subs: seq<Substitution>, sub: Substitution)
    requires sub.secret != ""
    ensures ReplaceInOrder(text, subs + [sub]) == ReplaceAll(ReplaceInOrder(text, subs), sub.secret, sub.pseudonym)
    ensures Secrets(subs + [sub]) == Secrets(subs) + [sub.secret]
  {
    hide ReplaceAll;
    assert (subs + [sub])[..|subs|] == subs;
  }

  lemma StillUnder(m: Mapping, subs: seq<Substitution>, x: string)
    requires Inverse(m) && UnderPseudonyms(m, subs)
    ensures UnderPseudonyms(Store(m, x).0, subs + [Substitution(x, Store(m, x).1)])
  {
    StoreKeepsInverse(m, x);
    hide Inverse, Store;
  }

  /** A secret new to the session gets the next number; one that is known keeps its pseudonym. */
  lemma PseudonymOf(m: Mapping, raw: string)
    ensures raw in m.forward ==> Store(m, raw) == (m, m.forward[raw])
    ensures raw !in m.forward ==>
              && Store(m, raw).1 == "[REDACTED_SECRET_" + Print(|m.forward| + 1) + "]"
              && Store(m, raw).0.forward == m.forward[raw := Store(m, raw).1]
              && Store(m, raw).0.reverse == m.reverse[Store(m, raw).1 := raw]
  {
  }

  // ---------------------------------------------------------------------------------------------
  // Which matches are plain, and which can remain
  // ---------------------------------------------------------------------------------------------

  /** Without brackets, a match is plain exactly when no pseudonym contains it. */
  lemma PlainWithoutBrackets(y: string)
    requires BracketFree(y)
    ensures Plain(y) <==> forall n: nat :: n >= 1 ==> !Contains(Pseudonym(n), y)
  {
    hide Pseudonym, Contains, Bracketed;
    if forall n: nat :: n >= 1 ==> !Contains(Pseudonym(n), y) {
      forall n: nat | n >= 1 ensures Apart(y, Pseudonym(n)) {
        PseudonymIsBracketed(n);
        BracketFreeIsApart(y, Pseudonym(n));
      }
    }
  }

  /**
   A database URI may hold brackets, around an IPv6 address say.  It starts with a small letter and does not end
   with an opening bracket; so it is plain unless an 'R' follows an opening bracket in it.
   */
  lemma UriIsPlain(y: string)
    requires |y| > 0 && 'a' <= y[0] <= 'z' && y[|y| - 1] != '['
    requires forall i :: 0 <= i < |y| - 1 && y[i] == '[' ==> y[i + 1] != 'R'
    ensures Plain(y)
  {
    forall n: nat | n >= 1 ensures Apart(y, Pseudonym(n)) {
      UriIsApart(y, n);
    }
  }

  lemma PseudonymChars(n: nat)
    ensures var p := Pseudonym(n);
            |p| >= 2 && p[0] == '[' && p[1] == 'R' && forall i :: 0 <= i < |p| ==> !('a' <= p[i] <= 'z')
  {
    hide Print, Value;
    PrintRoundTrip(n);
    var p := Pseudonym(n);
    assert forall i :: 17 <= i < |p| - 1 ==> p[i] == Print(n)[i - 17];
  }

  lemma UriIsApart(y: string, n: nat)
    requires |y| > 0 && 'a' <= y[0] <= 'z' && y[|y| - 1] != '['
    requires forall i :: 0 <= i < |y| - 1 && y[i] == '[' ==> y[i + 1] != 'R'
    ensures Apart(y, Pseudonym(n))
  {
    PseudonymChars(n);
    hide Pseudonym;
    var p := Pseudonym(n);
    forall i | 0 <= i <= |p| ensures !OccursAt(p, i, y) {
      if i + |y| <= |p| {
        assert p[i..i + |y|][0] == p[i] != y[0];
      }
    }
    forall i | 0 <= i <= |y| ensures !OccursAt(y, i, p) {
      if i + |p| <= |y| {
        assert y[i..i + |p|][0] == y[i] && y[i..i + |p|][1] == y[i + 1];
      }
    }
    forall k | 0 < k < |y| && k <= |p| ensures y[..k] != p[|p| - k..] {
      assert y[..k][0] == y[0] != p[|p| - k..][0];
    }
    forall k | 0 < k < |y| && |y| - k <= |p| ensures y[k..] != p[..|y| - k] {
      var m := |y| - k;
      assert y[k..][0] == y[k] && p[..m][0] == '[';
      assert m > 1 ==> y[k..][1] == y[k + 1] && p[..m][1] == 'R';
    }
  }

  /** A match without brackets survives its own replacement exactly when it was there and its pseudonym contains it. */
  lemma SurvivesInPseudonym(text: string, secret: string, p: string)
    requires BracketFree(secret) && Bracketed(p)
    ensures Contains(ReplaceAll(text, secret, p), secret) <==> Contains(text, secret) && Contains(p, secret)
  {
    hide Contains, ReplaceAll, Bracketed;
    if !Contains(p, secret) {
      BracketFreeIsApart(secret, p);
      ReplaceRemoves(text, secret, p);
    } else if !Contains(text, secret) {
      ReplaceNone(text, secret, p);
    } else {
      ReplaceInserts(text, secret, p);
      ContainsTrans(ReplaceAll(text, secret, p), p, secret);
    }
  }

  /**
   A match can remain after the pass over it, in some payload that holds it, exactly when it overlaps the
   pseudonym it gets in its session so that replacing can form it anew.
   */
  lemma MatchCanRemain(m: Mapping, secret: string, valid: string -> bool)
    requires Inverse(m) && |secret| > 0 && valid(secret)
    ensures NonEmpty([secret])
    ensures CanReturn(secret, Store(m, secret).1) <==>
            exists payload :: Contains(payload, secret)
              && Contains(Redact(Pass(m, payload, {}, []), [secret], valid).text, secret)
  {
    StoreKeepsInverse(m, secret);
    assert NonEmpty([secret]) && |Store(m, secret).1| > 0;
    hide Store, Redact, ReplaceAll, Contains, CanReturn;
    ReturnsExactly(secret, Store(m, secret).1);
    forall payload
      ensures Redact(Pass(m, payload, {}, []), [secret], valid).text == ReplaceAll(payload, secret, Store(m, secret).1)
    {
      OneMatch(m, payload, secret, valid);
    }
  }

  /** The pass over a single valid match. */
  lemma OneMatch(m: Mapping, text: string, secret: string, valid: string -> bool)
    requires |secret| > 0 && valid(secret)
    ensures NonEmpty([secret])
    ensures Redact(Pass(m, text, {}, []), [secret], valid).text == ReplaceAll(text, secret, Store(m, secret).1)
  {
    hide Store, ReplaceAll;
    var start := Pass(m, text, {}, []);
    assert NonEmpty([secret]) && [secret][1..] == [];
    assert Redact(start, [secret], valid) == Redact(Handle(start, secret, valid), [], valid)
             == Handle(start, secret, valid);
  }

  /** Among such matches: those with the text of their own pseudonym inside. */
  lemma MatchAroundPseudonymCanRemain(pre: string, n: nat, post: string)
    ensures CanReturn(pre + (Pseudonym(n) + post), Pseudonym(n))
  {
    hide Pseudonym;
    var y := pre + (Pseudonym(n) + post);
    assert OccursAt(y, |pre|, Pseudonym(n));
  }

  // ---------------------------------------------------------------------------------------------
  // Substituting back
  // ---------------------------------------------------------------------------------------------

  /** Puts the secrets back, last substitution first, resolving each pseudonym through the vault. */
  function Restore(m: Mapping, text: string, subs: seq<Substitution>): string
    decreases |subs|
  {
    if subs == [] then text
    else
      var p := subs[|subs| - 1].pseudonym;
      if p in m.reverse && |p| > 0 then Restore(m, ReplaceAll(text, p, m.reverse[p]), subs[..|subs| - 1])
      else Restore(m, text, subs[..|subs| - 1])
  }

  /** The vault resolves every pseudonym of the list to its secret. */
  ghost predicate Resolves(m: Mapping, subs: seq<Substitution>) {
    forall i :: 0 <= i < |subs| ==> subs[i].pseudonym in m.reverse && m.reverse[subs[i].pseudonym] == subs[i].secret
  }

  ghost predicate Uses(subs: seq<Substitution>, q: string) {
    exists i :: 0 <= i < |subs| && subs[i].pseudonym == q
  }

  /** None of the pseudonyms of the list stands in the text. */
  ghost predicate FreeOf(text: string, subs: seq<Substitution>) {
    forall i :: 0 <= i < |subs| ==> !Contains(text, subs[i].pseudonym)
  }

  /** The only bracketed texts a pass adds are the pseudonyms it reports. */
  ghost predicate AddsOnly(text: string, subs: seq<Substitution>, payload: string) {
    forall q :: Bracketed(q) && !Contains(payload, q) && !Uses(subs, q) ==> !Contains(text, q)
  }

  /** The pass so far can be undone by any vault that still resolves its pseudonyms. */
  ghost predicate Undoable(text: string, subs: seq<Substitution>, payload: string) {
    FreeOf(payload, subs) ==> forall m :: Resolves(m, subs) ==> Restore(m, text, subs) == payload
  }

  ghost predicate Traced(p: Pass, payload: string) {
    && Inverse(p.mapping)
    && Resolves(p.mapping, p.done)
    && (forall i :: 0 <= i < |p.done| ==> p.done[i].secret in p.seen)
    && AddsOnly(p.text, p.done, payload)
    && Undoable(p.text, p.done, payload)
  }

  lemma UsesStep(subs: seq<Substitution>, s: Substitution, q: string)
    ensures Uses(subs + [s], q) <==> Uses(subs, q) || q == s.pseudonym
  {
    var all := subs + [s];
    if Uses(subs, q) {
      var i :| 0 <= i < |subs| && subs[i].pseudonym == q;
      assert all[i].pseudonym == q;
    }
    if q == s.pseudonym {
      assert all[|subs|].pseudonym == q;
    }
  }

  /** A fresh secret gets a pseudonym the pass has not used. */
  lemma FreshPseudonym(p: Pass, payload: string, m: string)
    requires Traced(p, payload) && m !in p.seen
    ensures !Uses(p.done, Store(p.mapping, m).1)
  {
    var (mapping, q) := Store(p.mapping, m);
    StoreKeepsInverse(p.mapping, m);
    hide Store, Inverse, AddsOnly, Undoable;
    assert forall i :: 0 <= i < |p.done| ==> mapping.reverse[p.done[i].pseudonym] == p.done[i].secret != m;
  }

  lemma ReplaceAddsOnly(p: Pass, payload: string, m: string, q: string)
    requires |m| > 0 && Bracketed(q) && AddsOnly(p.text, p.done, payload)
    ensures AddsOnly(ReplaceAll(p.text, m, q), p.done + [Substitution(m, q)], payload)
  {
    hide ReplaceAll, Contains, Bracketed, Uses, Apart;
    var s := Substitution(m, q);
    forall r | Bracketed(r) && !Contains(payload, r) && !Uses(p.done + [s], r)
      ensures !Contains(ReplaceAll(p.text, m, q), r)
    {
      UsesStep(p.done, s, r);
      BracketedOverlapNone(q, r);
      ReplaceCreatesNone(p.text, m, q, r);
    }
  }

  lemma ReplaceUndoable(p: Pass, payload: string, m: string, q: string)
    requires |m| > 0 && Bracketed(q) && AddsOnly(p.text, p.done, payload) && Undoable(p.text, p.done, payload)
             && !Uses(p.done, q)
    ensures Undoable(ReplaceAll(p.text, m, q), p.done + [Substitution(m, q)], payload)
  {
    hide ReplaceAll, Contains;
    var s := Substitution(m, q);
    var all := p.done + [s];
    assert all[..|all| - 1] == p.done && all[|all| - 1] == s;
    if FreeOf(payload, all) {
      assert forall i :: 0 <= i < |p.done| ==> all[i] == p.done[i];
      assert !Contains(payload, q);
      ReplaceUndone(p.text, m, q);
      forall v | Resolves(v, all) ensures Restore(v, ReplaceAll(p.text, m, q), all) == payload {
        assert v.reverse[all[|p.done|].pseudonym] == m;
        assert forall i :: 0 <= i < |p.done| ==>
                 p.done[i].pseudonym in v.reverse && v.reverse[p.done[i].pseudonym] == p.done[i].secret;
        assert Resolves(v, p.done);
      }
    }
  }

  lemma HandleIsTraced(p: Pass, payload: string, m: string, valid: string -> bool)
    requires |m| > 0 && Traced(p, payload)
    ensures Traced(Handle(p, m, valid), payload)
  {
    hide Store, Inverse, ReplaceAll, AddsOnly, Undoable;
    if m !in p.seen && valid(m) {
      var (mapping, q) := Store(p.mapping, m);
      StoreKeepsInverse(p.mapping, m);
      FreshPseudonym(p, payload, m);
      ReplaceAddsOnly(p, payload, m, q);
      ReplaceUndoable(p, payload, m, q);
    }
  }

  lemma {:induction false} RedactIsTraced(p: Pass, payload: string, matches: seq<string>, valid: string -> bool)
    requires NonEmpty(matches) && Traced(p, payload)
    ensures Traced(Redact(p, matches, valid), payload)
    decreases matches
  {
    hide Traced, Handle;
    if matches != [] {
      HandleIsTraced(p, payload, matches[0], valid);
      RedactIsTraced(Handle(p, matches[0], valid), payload, matches[1..], valid);
    }
  }

  /**
   Redaction can be undone: substituting the reported pseudonyms back, last first, restores the payload, if it
   held none of them.
   */
  lemma RedactionRoundTrip(m: Mapping, payload: string, matches: seq<string>, valid: string -> bool)
    requires Inverse(m) && NonEmpty(matches)
    ensures var out := Redact(Pass(m, payload, {}, []), matches, valid);
            FreeOf(payload, out.done) ==> Restore(out.mapping, out.text, out.done) == payload
  {
    var start := Pass(m, payload, {}, []);
    RedactIsTraced(start, payload, matches, valid);
  }
}
