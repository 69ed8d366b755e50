/**
 The vault and the scanner as objects (internal/inbound/dlp.go): a session holds two maps, and the raw secrets
 are arrays that `Destroy` overwrites.
 */
module SessionVault {
  import opened DlpScanner
  import opened Replacement
  import opened Vault

  class SessionMapping {
    var forwardMap: map<string, string>
    var reverseMap: map<string, array<char>>

    constructor ()
      ensures forwardMap == map[] && reverseMap == map[]
    {
      forwardMap, reverseMap := map[], map[];
    }

    ghost function View(): Mapping
      reads this, reverseMap.Values
    {
      Mapping(forwardMap, map p | p in reverseMap :: reverseMap[p][..])
    }

    /** The session's half of `Store`. */
    method Add(rawSecret: string) returns (pseudo: string)
      modifies this
      ensures (View(), pseudo) == Store(old(View()), rawSecret)
      ensures forall a :: a in reverseMap.Values ==> a in old(reverseMap.Values) || fresh(a)
    {
      if rawSecret in forwardMap {
        return forwardMap[rawSecret];
      }
      pseudo := Pseudonym(|forwardMap| + 1);
      var raw := new char[|rawSecret|](i requires 0 <= i < |rawSecret| => rawSecret[i]);
      forwardMap := forwardMap[rawSecret := pseudo];
      reverseMap := reverseMap[pseudo := raw];
      assert raw[..] == rawSecret;
      assert View().reverse == old(View()).reverse[pseudo := rawSecret];
    }

    /** Overwrites every raw secret with zeroes, then forgets both maps. */
    method Wipe()
      modifies this, reverseMap.Values
      ensures forall a :: a in old(reverseMap.Values) ==> forall i :: 0 <= i < a.Length ==> a[i] == '\0'
      ensures View() == EMPTY
    {
      ghost var all := reverseMap.Values;
      var left := reverseMap.Keys;
      while left != {}
        invariant left <= reverseMap.Keys && reverseMap == old(reverseMap)
        invariant forall p :: p in reverseMap && p !in left ==>
                    forall i :: 0 <= i < reverseMap[p].Length ==> reverseMap[p][i] == '\0'
        decreases left
      {
        var p :| p in left;
        var raw := reverseMap[p];
        forall i | 0 <= i < raw.Length {
          raw[i] := '\0';
        }
        left := left - {p};
      }
      forwardMap, reverseMap := map[], map[];
    }
  }

  class SessionVault {
    var sessions: map<string, SessionMapping>

    /** The arrays that hold, or held, raw secrets. */
    ghost var raws: set<array<char>>

    /** No sharing between sessions. */
    ghost predicate Valid()
      reads this, sessions.Values
    {
      && (forall s :: s in sessions ==> sessions[s].reverseMap.Values <= raws)
      && forall s, t :: s in sessions && t in sessions && s != t ==>
           sessions[s] != sessions[t] && sessions[s].reverseMap.Values !! sessions[t].reverseMap.Values
    }

    ghost function View(): map<string, Mapping>
      requires Valid()
      reads this, sessions.Values, raws
    {
      map s | s in sessions :: sessions[s].View()
    }

    /** What the vault knows of one session. */
    ghost function Of(sessionKey: string): Mapping
      requires Valid()
      reads this, sessions.Values, raws
    {
      if sessionKey in sessions then sessions[sessionKey].View() else EMPTY
    }

    constructor ()
      ensures Valid() && View() == map[] && raws == {}
    {
      sessions := map[];
      raws := {};
    }

    method GetOrCreateSession(sessionKey: string) returns (sm: SessionMapping)
      requires Valid()
      modifies this`sessions
      ensures Valid() && sessionKey in sessions && sessions[sessionKey] == sm
      ensures if sessionKey in old(sessions) then sessions == old(sessions)
              else fresh(sm) && sm.View() == EMPTY && sessions == old(sessions)[sessionKey := sm]
      ensures sm.View() == old(Of(sessionKey)) && fresh(sessions.Values - old(sessions.Values))
      ensures forall s :: s in old(sessions) ==>
                sessions[s] == old(sessions[s]) && sessions[s].View() == old(sessions[s].View())
    {
      if sessionKey !in sessions {
        sm := new SessionMapping();
        sessions := sessions[sessionKey := sm];
      } else {
        sm := sessions[sessionKey];
      }
    }

    method Store(sessionKey: string, rawSecret: string) returns (pseudo: string)
      requires Valid()
      modifies this, sessions.Values
      ensures Valid() && fresh(raws - old(raws)) && fresh(sessions.Values - old(sessions.Values))
      ensures (Of(sessionKey), pseudo) == Vault.Store(old(Of(sessionKey)), rawSecret)
      ensures sessions.Keys == old(sessions.Keys) + {sessionKey}
      ensures forall s :: s in old(sessions) && s != sessionKey ==> sessions[s].View() == old(sessions[s].View())
    {
      hide Vault.Store, SessionMapping.View;
      var sm := GetOrCreateSession(sessionKey);
      pseudo := StoreIn(sessionKey, sm, rawSecret);
    }

    /** Storing in one session leaves the others alone. */
    method StoreIn(sessionKey: string, sm: SessionMapping, rawSecret: string) returns (pseudo: string)
      requires Valid() && sessionKey in sessions && sessions[sessionKey] == sm
      modifies this`raws, sm
      ensures Valid() && fresh(raws - old(raws))
      ensures (sm.View(), pseudo) == Vault.Store(old(sm.View()), rawSecret)
      ensures forall s :: s in sessions && s != sessionKey ==> sessions[s].View() == old(sessions[s].View())
    {
      hide Vault.Store;
      pseudo := sm.Add(rawSecret);
      raws := raws + sm.reverseMap.Values;
    }

    /** Looks a pseudonym up; the array returned is the vault's own. */
    method Resolve(sessionKey: string, pseudo: string) returns (raw: array?<char>, found: bool)
      requires Valid()
      ensures found <==> sessionKey in View() && pseudo in View()[sessionKey].reverse
      ensures found ==> raw != null && raw[..] == View()[sessionKey].reverse[pseudo]
      ensures !found ==> raw == null
    {
      if sessionKey !in sessions {
        return null, false;
      }
      var sm := sessions[sessionKey];
      if pseudo in sm.reverseMap {
        return sm.reverseMap[pseudo], true;
      }
      return null, false;
    }

    /** Removes the session and leaves no raw secret of it in memory; other sessions are untouched. */
    method Destroy(sessionKey: string)
      requires Valid()
      modifies this, sessions.Values, raws
      ensures Valid() && sessions.Keys == old(sessions.Keys) - {sessionKey}
      ensures forall s :: s in sessions ==> sessions[s].View() == old(sessions[s].View())
      ensures sessionKey in old(sessions) ==>
                forall a :: a in old(sessions[sessionKey].reverseMap.Values) ==>
                  forall i :: 0 <= i < a.Length ==> a[i] == '\0'
    {
      if sessionKey !in sessions {
        return;
      }
      var sm := sessions[sessionKey];
      sessions := sessions - {sessionKey};
      sm.Wipe();
    }
  }

  /** One pass of the scanner over a payload, storing its secrets in the vault. */
  method RedactMatches(vault: SessionVault, sessionKey: string, payload: string, matches: seq<string>,
                       validator: string -> bool)
    returns (result: string, reported: seq<Substitution>)
    requires vault.Valid() && NonEmpty(matches)
    modifies vault, vault.sessions.Values
    ensures vault.Valid() && fresh(vault.sessions.Values - old(vault.sessions.Values))
    ensures var out := Redact(Pass(old(vault.Of(sessionKey)), payload, {}, []), matches, validator);
            result == out.text && reported == out.done && vault.Of(sessionKey) == out.mapping
    ensures forall s :: s in old(vault.sessions) && s != sessionKey ==>
              s in vault.sessions && vault.sessions[s].View() == old(vault.sessions[s].View())
  {
    result, reported := payload, [];
    var seenInPass := {};
    ghost var start := Pass(vault.Of(sessionKey), payload, {}, []);
    ghost var p := start;
    assert matches[0..] == matches;
    NonEmptyMatches(matches);
    hide Redact, Handle, Vault.Store, ReplaceAll, SessionMapping.View, SessionVault.Valid, NonEmpty;
    for k := 0 to |matches|
      invariant vault.Valid() && fresh(vault.sessions.Values - old(vault.sessions.Values))
      invariant NonEmpty(matches[k..]) && Redact(p, matches[k..], validator) == Redact(start, matches, validator)
      invariant p == Pass(vault.Of(sessionKey), result, seenInPass, reported)
      invariant forall s :: s in old(vault.sessions) && s != sessionKey ==>
                  s in vault.sessions && vault.sessions[s].View() == old(vault.sessions[s].View())
    {
      var m := matches[k];
      RedactStep(p, matches, k, validator);
      HandleCases(p, m, validator);
      p := Handle(p, m, validator);
      if m in seenInPass {
        continue;
      }
      seenInPass := seenInPass + {m};
      if !validator(m) {
        continue;
      }
      var pseudonym := vault.Store(sessionKey, m);
      result := ReplaceAll(result, m, pseudonym);
      reported := reported + [Substitution(m, pseudonym)];
    }
    RedactNone(p, matches[|matches|..], validator);
  }

  /** The scanner: one pass per rule over what the passes before it have left; an empty payload is passed on. */
  method Execute(vault: SessionVault, tenant: string, session: string, payload: string, rules: seq<Rule>)
    returns (result: string, reports: seq<seq<Substitution>>)
    requires vault.Valid() && Finders(rules)
    modifies vault, vault.sessions.Values
    ensures vault.Valid()
    ensures var key := SessionKey(tenant, session);
            var out := if payload == "" then Scanned(old(vault.Of(key)), "", [])
                       else Passes(old(vault.Of(key)), payload, rules);
            Scanned(vault.Of(key), result, reports) == out
    ensures forall s :: s in old(vault.sessions) && s != SessionKey(tenant, session) ==>
              s in vault.sessions && vault.sessions[s].View() == old(vault.sessions[s].View())
    ensures ':' !in tenant ==>
              forall other, theirs ::
                ':' !in other && other != tenant && SessionKey(other, theirs) in old(vault.sessions) ==>
                  vault.Of(SessionKey(other, theirs)) == old(vault.Of(SessionKey(other, theirs)))
  {
    IsolationIsExact(tenant);
    result, reports := payload, [];
    if |payload| == 0 {
      return;
    }
    var sessionKey := tenant;
    if session != "" {
      sessionKey := tenant + ":" + session;
    }
    ghost var start := vault.Of(sessionKey);
    hide Redact, SessionMapping.View, SessionVault.Valid;
    for k := 0 to |rules|
      invariant vault.Valid() && fresh(vault.sessions.Values - old(vault.sessions.Values))
      invariant Scanned(vault.Of(sessionKey), result, reports) == Passes(start, payload, rules[..k])
      invariant forall s :: s in old(vault.sessions) && s != sessionKey ==>
                  s in vault.sessions && vault.sessions[s].View() == old(vault.sessions[s].View())
    {
      assert rules[..k + 1][..k] == rules[..k];
      var reported;
      result, reported := RedactMatches(vault, sessionKey, result, rules[k].find(result), rules[k].valid);
      reports := reports + [reported];
    }
    assert rules[..|rules|] == rules;
  }

  lemma NonEmptyMatches(matches: seq<string>)
    requires NonEmpty(matches)
    ensures forall i :: 0 <= i < |matches| ==> |matches[i]| > 0
  {
  }

  lemma RedactStep(p: Pass, matches: seq<string>, k: nat, valid: string -> bool)
    requires NonEmpty(matches) && k < |matches|
    ensures NonEmpty(matches[k..]) && NonEmpty(matches[k + 1..])
    ensures Redact(p, matches[k..], valid) == Redact(Handle(p, matches[k], valid), matches[k + 1..], valid)
  {
    hide Handle;
    assert matches[k..][0] == matches[k] && matches[k..][1..] == matches[k + 1..];
  }

  /** Seen before, not valid, or stored and replaced. */
  lemma HandleCases(p: Pass, m: string, valid: string -> bool)
    requires |m| > 0
    ensures Handle(p, m, valid) ==
            if m in p.seen then p
            else if !valid(m) then p.(seen := p.seen + {m})
            else
              var (mapping, pseudonym) := Vault.Store(p.mapping, m);
              Pass(mapping, ReplaceAll(p.text, m, pseudonym), p.seen + {m}, p.done + [Substitution(m, pseudonym)])
  {
  }

  lemma RedactNone(p: Pass, matches: seq<string>, valid: string -> bool)
    requires matches == []
    ensures Redact(p, matches, valid) == p
  {
  }
}
