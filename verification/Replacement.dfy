/** Replacing every non-overlapping occurrence of a text, as `bytes.ReplaceAll` does, and undoing it. */
module Replacement {
  import opened Occurrences

  /** Left to right, leftmost occurrence first. */
  function ReplaceAll(s: string, old': string, new': string): string
    requires |old'| > 0
  {
    if |s| < |old'| then s
    else if s[..|old'|] == old' then new' + ReplaceAll(s[|old'|..], old', new')
    else [s[0]] + ReplaceAll(s[1..], old', new')
  }

  /** The pieces of `s` between the occurrences that `ReplaceAll` replaces. */
  function Split(s: string, sep: string): (gaps: seq<string>)
    requires |sep| > 0
    ensures |gaps| > 0
  {
    if |s| < |sep| then [s]
    else if s[..|sep|] == sep then [""] + Split(s[|sep|..], sep)
    else
      var rest := Split(s[1..], sep);
      [[s[0]] + rest[0]] + rest[1..]
  }

  function Join(gaps: seq<string>, sep: string): string
    requires |gaps| > 0
  {
    if |gaps| == 1 then gaps[0] else gaps[0] + (sep + Join(gaps[1..], sep))
  }

  /** Prefixing the first gap prefixes the whole. */
  lemma JoinPrefix(c: string, gaps: seq<string>, sep: string)
    requires |gaps| > 0
    ensures Join([c + gaps[0]] + gaps[1..], sep) == c + Join(gaps, sep)
  {
    var all := [c + gaps[0]] + gaps[1..];
    assert all[1..] == gaps[1..];
    if |gaps| > 1 {
      assert c + gaps[0] + (sep + Join(gaps[1..], sep)) == c + (gaps[0] + (sep + Join(gaps[1..], sep)));
    }
  }

  lemma JoinEmpty(gaps: seq<string>, sep: string)
    requires |gaps| > 0
    ensures Join([""] + gaps, sep) == sep + Join(gaps, sep)
  {
    assert ([""] + gaps)[1..] == gaps;
    assert "" + (sep + Join(gaps, sep)) == sep + Join(gaps, sep);
  }

  /** Replacing is splitting at the old text and joining with the new. */
  lemma {:induction false} ReplaceIsJoin(s: string, old': string, new': string)
    requires |old'| > 0
    ensures ReplaceAll(s, old', new') == Join(Split(s, old'), new')
  {
    hide Join;
    if |s| < |old'| {
      JoinOne(s, new');
    } else if s[..|old'|] == old' {
      ReplaceIsJoin(s[|old'|..], old', new');
      JoinEmpty(Split(s[|old'|..], old'), new');
    } else {
      ReplaceIsJoin(s[1..], old', new');
      JoinPrefix([s[0]], Split(s[1..], old'), new');
    }
  }

  lemma JoinOne(s: string, sep: string)
    ensures Join([s], sep) == s
  {
  }

  /** Joining with the separator itself gives the text back. */
  lemma {:induction false} JoinOfSplit(s: string, sep: string)
    requires |sep| > 0
    ensures Join(Split(s, sep), sep) == s
  {
    hide Join;
    if |s| < |sep| {
      JoinOne(s, sep);
    } else if s[..|sep|] == sep {
      JoinOfSplit(s[|sep|..], sep);
      JoinEmpty(Split(s[|sep|..], sep), sep);
      assert s == sep + s[|sep|..];
    } else {
      JoinOfSplit(s[1..], sep);
      JoinPrefix([s[0]], Split(s[1..], sep), sep);
      assert s == [s[0]] + s[1..];
    }
  }

  ghost predicate NoneContains(gaps: seq<string>, p: string) {
    forall i :: 0 <= i < |gaps| ==> !Contains(gaps[i], p)
  }

  lemma FirstGapIsPrefix(gaps: seq<string>, sep: string)
    requires |gaps| > 0
    ensures gaps[0] <= Join(gaps, sep)
  {
  }

  /** A text without `p` does not contain it at its start, nor after it. */
  lemma ContainsStep(c: char, s: string, p: string)
    requires |p| > 0
    ensures Contains([c] + s, p) <==> OccursAt([c] + s, 0, p) || Contains(s, p)
  {
    var t := [c] + s;
    forall i | 1 <= i <= |t| ensures OccursAt(t, i, p) <==> OccursAt(s, i - 1, p) {
      OccursInRightPart([c], s, i, p);
    }
    if Contains(s, p) {
      var i :| 0 <= i <= |s| && OccursAt(s, i, p);
      assert OccursAt(t, i + 1, p);
    }
  }

  /** The gaps hold no occurrence of what was split at. */
  lemma {:induction false} GapsAreClean(s: string, sep: string)
    requires |sep| > 0
    ensures NoneContains(Split(s, sep), sep)
  {
    hide Join;
    if |s| < |sep| {
    } else if s[..|sep|] == sep {
      GapsAreClean(s[|sep|..], sep);
    } else {
      var rest := Split(s[1..], sep);
      GapsAreClean(s[1..], sep);
      JoinOfSplit(s[1..], sep);
      FirstGapIsPrefix(rest, sep);
      var first := [s[0]] + rest[0];
      ContainsStep(s[0], rest[0], sep);
      assert first <= s;
      assert |first| >= |sep| ==> first[..|sep|] == s[..|sep|];
      assert !Contains(first, sep);
    }
  }

  /** A joined text contains what its gaps contain. */
  lemma {:induction false} JoinContains(gaps: seq<string>, sep: string, p: string, k: nat)
    requires k < |gaps| && Contains(gaps[k], p)
    ensures Contains(Join(gaps, sep), p)
  {
    if |gaps| > 1 {
      var g, rest := gaps[0], Join(gaps[1..], sep);
      if k == 0 {
        var i :| 0 <= i <= |g| && OccursAt(g, i, p);
        OccursInExtension(g, sep + rest, i, p);
        assert OccursAt(Join(gaps, sep), i, p);
      } else {
        JoinContains(gaps[1..], sep, p, k - 1);
        var i :| 0 <= i <= |rest| && OccursAt(rest, i, p);
        assert Join(gaps, sep) == (g + sep) + rest;
        OccursInRightPart(g + sep, rest, i + |g + sep|, p);
        assert OccursAt(Join(gaps, sep), i + |g + sep|, p);
      }
    }
  }

  lemma GapsOfClean(gaps: seq<string>, sep: string, p: string)
    requires |gaps| > 0 && !Contains(Join(gaps, sep), p)
    ensures NoneContains(gaps, p)
  {
    hide Join, Contains;
    forall k | 0 <= k < |gaps| ensures !Contains(gaps[k], p) {
      if Contains(gaps[k], p) {
        JoinContains(gaps, sep, p, k);
      }
    }
  }

  // ---------------------------------------------------------------------------------------------
  // Texts that overlap
  // ---------------------------------------------------------------------------------------------

  /** A proper part of `y`, from its start, is the end of `p`. */
  ghost predicate StartsInEnd(y: string, p: string) {
    exists k :: 0 < k < |y| && k <= |p| && y[..k] == p[|p| - k..]
  }

  /** The part of `y` from `k` on is the start of `p`. */
  predicate EndIsStart(y: string, k: nat, p: string) {
    k <= |y| && |y| - k <= |p| && y[k..] == p[..|y| - k]
  }

  ghost predicate EndsInStart(y: string, p: string) {
    exists k :: 0 < k < |y| && EndIsStart(y, k, p)
  }

  /** Neither contains the other, and they do not overlap at an end. */
  ghost predicate Apart(y: string, p: string) {
    |y| > 0 && !Contains(p, y) && !Contains(y, p) && !StartsInEnd(y, p) && !EndsInStart(y, p)
  }

  /** An occurrence that starts inside `p` ends inside it, or else puts the start of `y` at the end of `p`. */
  lemma CrossesOut(p: string, rest: string, j: nat, y: string)
    requires j < |p| && OccursAt(p + rest, j, y)
    ensures if j + |y| <= |p| then OccursAt(p, j, y) else StartsInEnd(y, p)
  {
    var t, k := p + rest, |p| - j;
    if |y| <= k {
      OccursInExtension(p, rest, j, y);
    } else {
      assert y[..k] == t[j..j + |y|][..k] == t[j..j + k] == p[|p| - k..];
    }
  }

  /** An occurrence that starts in `g` and ends in `p + rest` puts the end of `y` at the start of `p`. */
  lemma CrossesInto(g: string, p: string, rest: string, i: nat, y: string)
    requires i < |g| < i + |y| && OccursAt(g + (p + rest), i, y)
    ensures g[i..] == y[..|g| - i]
    ensures i + |y| <= |g| + |p| ==> EndIsStart(y, |g| - i, p)
    ensures i + |y| > |g| + |p| ==> OccursAt(y, |g| - i, p)
  {
    var t, k := g + (p + rest), |g| - i;
    assert y == t[i..i + |y|];
    assert y[..k] == t[i..|g|] == g[i..];
    if i + |y| <= |g| + |p| {
      assert y[k..] == t[|g|..i + |y|] == p[..|y| - k];
    } else {
      assert y[k..k + |p|] == t[|g|..|g| + |p|] == p;
    }
  }

  /** An occurrence in g + p + rest falls in one of the three, for texts that do not overlap `p`. */
  lemma OccursInThree(g: string, p: string, rest: string, i: nat, y: string)
    requires |y| > 0 && OccursAt(g + (p + rest), i, y)
    requires !StartsInEnd(y, p) && !EndsInStart(y, p) && (Contains(y, p) ==> y == p)
    ensures OccursAt(g, i, y) || (|g| <= i && OccursAt(p, i - |g|, y))
            || (|g| + |p| <= i && OccursAt(rest, i - |g| - |p|, y))
  {
    if i + |y| <= |g| {
      OccursInExtension(g, p + rest, i, y);
    } else if i < |g| {
      CrossesInto(g, p, rest, i, y);
      assert false;
    } else {
      OccursInRightPart(g, p + rest, i, y);
      var j := i - |g|;
      if j >= |p| {
        OccursInRightPart(p, rest, j, y);
      } else {
        CrossesOut(p, rest, j, y);
      }
    }
  }

  /** Joining with a text that is apart from `y` creates no occurrence of `y` when there is none in the gaps. */
  lemma {:induction false} JoinCreatesNone(gaps: seq<string>, p: string, y: string)
    requires |gaps| > 0 && Apart(y, p) && NoneContains(gaps, y)
    ensures !Contains(Join(gaps, p), y)
  {
    if |gaps| > 1 {
      var g, rest := gaps[0], Join(gaps[1..], p);
      JoinCreatesNone(gaps[1..], p, y);
      forall i | 0 <= i <= |Join(gaps, p)| ensures !OccursAt(Join(gaps, p), i, y) {
        if OccursAt(g + (p + rest), i, y) {
          OccursInThree(g, p, rest, i, y);
        }
      }
    }
  }

  // ---------------------------------------------------------------------------------------------
  // Which texts can be there after being replaced
  // ---------------------------------------------------------------------------------------------

  /** `y` does not occur in a + y before its own place. */
  ghost predicate NoEarlier(a: string, y: string) {
    forall i :: 0 <= i < |a| ==> !OccursAt(a + y, i, y)
  }

  /** A first part of `y` can be left standing before an occurrence that `p` replaces, and `p` starts like the rest. */
  ghost predicate FormsAtStart(y: string, p: string) {
    exists k :: 0 < k < |y| && EndIsStart(y, k, p) && NoEarlier(y[..k], y)
  }

  /** Replacing `y` by `p` can leave or form an occurrence of `y`. */
  ghost predicate CanReturn(y: string, p: string) {
    Contains(p, y) || Contains(y, p) || StartsInEnd(y, p) || FormsAtStart(y, p)
  }

  /** Every gap but the last is followed by the leftmost occurrence of the separator. */
  ghost predicate Leftmost(gaps: seq<string>, sep: string) {
    forall k :: 0 <= k < |gaps| - 1 ==> NoEarlier(gaps[k], sep)
  }

  lemma NoEarlierStep(c: char, g: string, sep: string, rest: string)
    requires NoEarlier(g, sep) && !OccursAt([c] + (g + (sep + rest)), 0, sep)
    ensures NoEarlier([c] + g, sep)
  {
    var t := [c] + g + sep;
    assert t == [c] + (g + sep) && [c] + (g + (sep + rest)) == t + rest;
    forall i | 0 <= i < |g| + 1 ensures !OccursAt(t, i, sep) {
      if i == 0 {
        OccursInExtension(t, rest, 0, sep);
      } else {
        OccursInRightPart([c], g + sep, i, sep);
      }
    }
  }

  lemma {:induction false} SplitIsLeftmost(s: string, sep: string)
    requires |sep| > 0
    ensures Leftmost(Split(s, sep), sep)
  {
    if |s| < |sep| {
    } else if s[..|sep|] == sep {
      SplitIsLeftmost(s[|sep|..], sep);
    } else {
      var rest := Split(s[1..], sep);
      SplitIsLeftmost(s[1..], sep);
      if |rest| > 1 {
        JoinOfSplit(s[1..], sep);
        assert s == [s[0]] + (rest[0] + (sep + Join(rest[1..], sep)));
        NoEarlierStep(s[0], rest[0], sep, Join(rest[1..], sep));
      }
    }
  }

  /** An occurrence that starts in a gap and ends in what follows it. */
  lemma CrossingReturns(g: string, p: string, rest: string, i: nat, y: string)
    requires NoEarlier(g, y) && i < |g| < i + |y| && OccursAt(g + (p + rest), i, y)
    ensures CanReturn(y, p)
  {
    CrossesInto(g, p, rest, i, y);
    hide OccursAt;
    if i + |y| <= |g| + |p| {
      EndOfGap(g, i, y);
      assert FormsAtStart(y, p);
    } else {
      assert Contains(y, p);
    }
  }

  /** An occurrence in a clean gap, the substitute and the rest is in the rest, unless `y` can return. */
  lemma GapReturns(g: string, p: string, rest: string, i: nat, y: string)
    requires |y| > 0 && !Contains(g, y) && NoEarlier(g, y) && OccursAt(g + (p + rest), i, y)
    ensures CanReturn(y, p) || (|g| + |p| <= i && OccursAt(rest, i - |g| - |p|, y))
  {
    hide OccursAt, NoEarlier, CanReturn;
    if i + |y| <= |g| {
      OccursInExtension(g, p + rest, i, y);
    } else if i < |g| {
      CrossingReturns(g, p, rest, i, y);
    } else {
      OccursInRightPart(g, p + rest, i, y);
      if i < |g| + |p| {
        CrossesOut(p, rest, i - |g|, y);
        CannotStart(p, i - |g|, y);
      } else {
        OccursInRightPart(p, rest, i - |g|, y);
      }
    }
  }

  lemma CannotStart(p: string, j: nat, y: string)
    requires if j + |y| <= |p| then OccursAt(p, j, y) else StartsInEnd(y, p)
    ensures CanReturn(y, p)
  {
  }

  /** If the joined text holds `y` again, `y` can return. */
  lemma {:induction false} JoinReturns(gaps: seq<string>, p: string, y: string)
    requires |gaps| > 0 && |y| > 0 && NoneContains(gaps, y) && Leftmost(gaps, y)
    requires Contains(Join(gaps, p), y)
    ensures CanReturn(y, p)
  {
    hide OccursAt, NoEarlier, CanReturn;
    var t := Join(gaps, p);
    var i :| 0 <= i <= |t| && OccursAt(t, i, y);
    if |gaps| == 1 {
      assert false;
    } else {
      var g, rest := gaps[0], Join(gaps[1..], p);
      assert NoEarlier(gaps[0], y);
      GapReturns(g, p, rest, i, y);
      if !CanReturn(y, p) {
        OccursWithin(rest, i - |g| - |p|, y);
        assert Leftmost(gaps[1..], y);
        JoinReturns(gaps[1..], p, y);
      }
    }
  }

  lemma OccursWithin(s: string, i: nat, y: string)
    requires OccursAt(s, i, y)
    ensures Contains(s, y)
  {
  }

  /** If nothing comes before the occurrence after a gap, nothing comes before it after the end of the gap. */
  lemma EndOfGap(g: string, i: nat, y: string)
    requires i < |g| && NoEarlier(g, y)
    ensures NoEarlier(g[i..], y)
  {
    var a := g[i..];
    assert g + y == g[..i] + (a + y);
    forall j | 0 <= j < |a| ensures !OccursAt(a + y, j, y) {
      assert !OccursAt(g + y, i + j, y);
      OccursInRightPart(g[..i], a + y, i + j, y);
    }
  }

  lemma ReplaceHead(y: string, post: string, p: string)
    requires |y| > |post|
    ensures ReplaceAll(y + post, y, p) == p + post
  {
    var s := y + post;
    assert s[..|y|] == y && s[|y|..] == post;
  }

  lemma ReplaceSkip(s: string, y: string, p: string)
    requires |y| > 0 && |s| > 0 && !OccursAt(s, 0, y)
    ensures ReplaceAll(s, y, p) == [s[0]] + ReplaceAll(s[1..], y, p)
  {
    if |s| < |y| {
      assert s == [s[0]] + s[1..];
    }
  }

  /** Replacing the one occurrence in pre + y + post that nothing precedes. */
  lemma {:induction false} ReplaceInPlace(pre: string, y: string, post: string, p: string)
    requires |y| > |post| && NoEarlier(pre, y)
    ensures ReplaceAll(pre + (y + post), y, p) == pre + (p + post)
  {
    hide ReplaceAll, OccursAt;
    var s := pre + (y + post);
    if pre == "" {
      assert s == y + post;
      ReplaceHead(y, post, p);
    } else {
      var tail := pre[1..];
      assert s == (pre + y) + post && s[0] == pre[0] && s[1..] == tail + (y + post);
      assert !OccursAt(pre + y, 0, y);
      OccursInExtension(pre + y, post, 0, y);
      ReplaceSkip(s, y, p);
      NoEarlierInTail(pre, y);
      ReplaceInPlace(tail, y, post, p);
      assert pre == [pre[0]] + tail;
    }
  }

  lemma NoEarlierInTail(a: string, y: string)
    requires |a| > 0 && NoEarlier(a, y)
    ensures NoEarlier(a[1..], y)
  {
    if |a| > 1 {
      EndOfGap(a, 1, y);
    }
  }

  /** The leftmost occurrence. */
  lemma {:induction false} FirstOccurrence(s: string, p: string) returns (i: nat)
    requires Contains(s, p)
    ensures i <= |s| && OccursAt(s, i, p) && forall j :: 0 <= j < i ==> !OccursAt(s, j, p)
  {
    i := 0;
    while !OccursAt(s, i, p)
      invariant i <= |s| && forall j :: 0 <= j < i ==> !OccursAt(s, j, p)
      decreases |s| - i
    {
      i := i + 1;
    }
  }

  /** For each way in which a text can be there after its own replacement, a text that shows it. */
  lemma ReturnsSomewhere(y: string, p: string) returns (s: string)
    requires |y| > 0 && |p| > 0 && CanReturn(y, p)
    ensures Contains(s, y) && Contains(ReplaceAll(s, y, p), y)
  {
    hide ReplaceAll;
    if Contains(p, y) {
      s := ReturnsInside(y, p);
    } else if Contains(y, p) {
      s := ReturnsAround(y, p);
    } else if StartsInEnd(y, p) {
      s := ReturnsAtEnd(y, p);
    } else {
      s := ReturnsAtStart(y, p);
    }
  }

  lemma ReturnsInside(y: string, p: string) returns (s: string)
    requires |y| > 0 && Contains(p, y)
    ensures Contains(s, y) && Contains(ReplaceAll(s, y, p), y)
  {
    s := "" + (y + "");
    ReplaceInPlace("", y, "", p);
    assert s == y && "" + (p + "") == p && OccursAt(y, 0, y);
  }

  lemma ReturnsAround(y: string, p: string) returns (s: string)
    requires |p| > 0 && Contains(y, p)
    ensures Contains(s, y) && Contains(ReplaceAll(s, y, p), y)
  {
    var i := FirstOccurrence(y, p);
    var pre, post := y[..i], y[i + |p|..];
    assert y == pre + (p + post);
    s := pre + (y + post);
    forall j | 0 <= j < |pre| ensures !OccursAt(pre + y, j, y) {
      if OccursAt(pre + y, j, y) {
        EarlierCopy(pre, y, j, p);
        assert false;
      }
    }
    ReplaceInPlace(pre, y, post, p);
    assert OccursAt(y, 0, y);
    OccursInRightPart(pre, y + post, |pre|, y);
    OccursInExtension(y, post, 0, y);
    assert OccursAt(s, |pre|, y);
  }

  /** A copy of `y` that starts in `pre` brings the `p` in it to an earlier place in the `y` after `pre`. */
  lemma EarlierCopy(pre: string, y: string, j: nat, p: string)
    requires j < |pre| && pre <= y && OccursAt(y, |pre|, p) && OccursAt(pre + y, j, y)
    ensures OccursAt(y, j, p)
  {
    var k := |pre|;
    var t := pre + y;
    assert t[j..j + |y|][k..k + |p|] == t[j + k..j + k + |p|] == y[j..j + |p|];
  }

  lemma OccursJoined(a: string, y: string, b: string)
    ensures Contains(a + (y + b), y)
  {
    assert OccursAt(a + (y + b), |a|, y);
  }

  lemma Regroup(a: string, b: string, c: string)
    ensures (a + b) + c == a + (b + c)
  {
  }

  lemma NothingAround(a: string)
    ensures "" + a == a && a + "" == a
  {
  }

  lemma ReturnsAtEnd(y: string, p: string) returns (s: string)
    requires StartsInEnd(y, p)
    ensures Contains(s, y) && Contains(ReplaceAll(s, y, p), y)
  {
    var k :| 0 < k < |y| && k <= |p| && y[..k] == p[|p| - k..];
    s := y + y[k..];
    assert y == y[..k] + y[k..] && p == p[..|p| - k] + y[..k];
    EndFormsStart(p[..|p| - k], y[..k], y[k..]);
  }

  /** With y == c + post and p == q + c. */
  lemma EndFormsStart(q: string, c: string, post: string)
    requires |c| > 0
    ensures Contains((c + post) + post, c + post)
    ensures Contains(ReplaceAll((c + post) + post, c + post, q + c), c + post)
  {
    hide ReplaceAll, Contains;
    ReplaceHead(c + post, post, q + c);
    Regroup(q, c, post);
    NothingAround(c + post);
    OccursJoined(q, c + post, "");
    NothingAround((c + post) + post);
    OccursJoined("", c + post, post);
  }

  lemma ReturnsAtStart(y: string, p: string) returns (s: string)
    requires FormsAtStart(y, p)
    ensures Contains(s, y) && Contains(ReplaceAll(s, y, p), y)
  {
    var k :| 0 < k < |y| && EndIsStart(y, k, p) && NoEarlier(y[..k], y);
    s := y[..k] + (y + "");
    assert y == y[..k] + y[k..] && p == y[k..] + p[|y| - k..];
    StartFormsEnd(y[..k], y[k..], p[|y| - k..]);
  }

  /** With y == a + b and p == b + q. */
  lemma StartFormsEnd(a: string, b: string, q: string)
    requires |a + b| > 0 && NoEarlier(a, a + b)
    ensures Contains(a + ((a + b) + ""), a + b)
    ensures Contains(ReplaceAll(a + ((a + b) + ""), a + b, b + q), a + b)
  {
    hide ReplaceAll, Contains, NoEarlier;
    ReplaceInPlace(a, a + b, "", b + q);
    OccursJoined(a, a + b, "");
    NothingAround(b + q);
    Regroup(a, b, q);
    NothingAround((a + b) + q);
    OccursJoined("", a + b, q);
  }

  /** Exactly then a text can be found in what is left after all its occurrences were replaced. */
  lemma ReturnsExactly(y: string, p: string)
    requires |y| > 0 && |p| > 0
    ensures CanReturn(y, p) <==> exists s :: Contains(s, y) && Contains(ReplaceAll(s, y, p), y)
    ensures !CanReturn(y, p) ==> forall s :: !Contains(ReplaceAll(s, y, p), y)
  {
    hide ReplaceAll, CanReturn;
    if CanReturn(y, p) {
      var s := ReturnsSomewhere(y, p);
    } else {
      forall s ensures !Contains(ReplaceAll(s, y, p), y) {
        ReplaceIsJoin(s, y, p);
        GapsAreClean(s, y);
        SplitIsLeftmost(s, y);
        if Contains(Join(Split(s, y), p), y) {
          JoinReturns(Split(s, y), p, y);
        }
      }
    }
  }

  lemma ApartCannotReturn(y: string, p: string)
    requires Apart(y, p)
    ensures !CanReturn(y, p)
  {
  }

  // ---------------------------------------------------------------------------------------------
  // Bracketed texts
  // ---------------------------------------------------------------------------------------------

  /** Opens with '[' and closes with ']', with neither in between. */
  ghost predicate Bracketed(p: string) {
    && |p| >= 2
    && p[0] == '[' && p[|p| - 1] == ']'
    && (forall i :: 0 < i < |p| ==> p[i] != '[')
    && forall i :: 0 <= i < |p| - 1 ==> p[i] != ']'
  }

  ghost predicate BracketFree(y: string) {
    |y| > 0 && forall i :: 0 <= i < |y| ==> y[i] != '[' && y[i] != ']'
  }

  /** No bracketed text occurs in another. */
  lemma BracketedAreApart(p: string, q: string)
    requires Bracketed(p) && Bracketed(q) && Contains(p, q)
    ensures p == q
  {
    var i :| 0 <= i <= |p| && OccursAt(p, i, q);
    assert forall k :: 0 <= k < |q| ==> p[i + k] == q[k];
    assert i == 0;
    assert p[|q| - 1] == ']';
  }

  /** A bracketed text overlaps no other bracketed text, and itself only as a whole. */
  lemma BracketedOverlapNone(p: string, q: string)
    requires Bracketed(p) && Bracketed(q)
    ensures !StartsInEnd(q, p) && !EndsInStart(q, p)
    ensures p != q ==> Apart(q, p)
  {
    forall k | 0 < k < |q| && k <= |p| ensures q[..k] != p[|p| - k..] {
      assert q[..k][k - 1] != ']' && p[|p| - k..][k - 1] == ']';
    }
    forall k | 0 < k < |q| && |q| - k <= |p| ensures q[k..] != p[..|q| - k] {
      assert q[k..][0] != '[' && p[..|q| - k][0] == '[';
    }
    if Contains(p, q) {
      BracketedAreApart(p, q);
    }
    if Contains(q, p) {
      BracketedAreApart(q, p);
    }
  }

  /** Without brackets, only being contained matters. */
  lemma BracketFreeIsApart(y: string, p: string)
    requires BracketFree(y) && Bracketed(p) && !Contains(p, y)
    ensures Apart(y, p)
  {
    forall i | 0 <= i <= |y| ensures !OccursAt(y, i, p) {
      if i + |p| <= |y| {
        assert y[i..i + |p|][0] == y[i] != '[';
      }
    }
    forall k | 0 < k < |y| && k <= |p| ensures y[..k] != p[|p| - k..] {
      assert y[..k][k - 1] == y[k - 1] != ']' && p[|p| - k..][k - 1] == ']';
    }
    forall k | 0 < k < |y| && |y| - k <= |p| ensures y[k..] != p[..|y| - k] {
      assert y[k..][0] == y[k] != '[' && p[..|y| - k][0] == '[';
    }
  }

  /** The leftmost occurrence of a bracketed separator ends the first clean gap. */
  lemma {:induction false} SplitStep(g: string, p: string, rest: string)
    requires Bracketed(p) && !Contains(g, p)
    ensures Split(g + (p + rest), p) == [g] + Split(rest, p)
    decreases |g|
  {
    var t := g + (p + rest);
    if g == "" {
      assert t == p + rest && t[..|p|] == p && t[|p|..] == rest;
    } else {
      var g' := g[1..];
      assert t[1..] == g' + (p + rest) && t[0] == g[0];
      assert g == [g[0]] + g';
      ContainsStep(g[0], g', p);
      SplitStep(g', p, rest);
      if t[..|p|] == p {
        assert OccursAt(t, 0, p);
        BracketedOverlapNone(p, p);
        OccursInThree(g, p, rest, 0, p);
        assert false;
      }
      assert [[g[0]] + g'] + Split(rest, p) == [g] + Split(rest, p);
    }
  }

  lemma {:induction false} SplitOfClean(g: string, p: string)
    requires |p| > 0 && !Contains(g, p)
    ensures Split(g, p) == [g]
    decreases |g|
  {
    if |g| >= |p| {
      assert !OccursAt(g, 0, p);
      assert g == [g[0]] + g[1..];
      ContainsStep(g[0], g[1..], p);
      SplitOfClean(g[1..], p);
    }
  }

  /** Splitting undoes joining when the gaps are clean. */
  lemma {:induction false} SplitOfJoin(gaps: seq<string>, p: string)
    requires |gaps| > 0 && Bracketed(p) && NoneContains(gaps, p)
    ensures Split(Join(gaps, p), p) == gaps
  {
    hide Split;
    if |gaps| == 1 {
      SplitOfClean(gaps[0], p);
    } else {
      SplitOfJoin(gaps[1..], p);
      SplitStep(gaps[0], p, Join(gaps[1..], p));
    }
  }

  // ---------------------------------------------------------------------------------------------
  // What replacing by a bracketed text does
  // ---------------------------------------------------------------------------------------------

  /** Substituting back restores the text, if it did not contain the substitute. */
  lemma ReplaceUndone(s: string, secret: string, p: string)
    requires |secret| > 0 && Bracketed(p) && !Contains(s, p)
    ensures ReplaceAll(ReplaceAll(s, secret, p), p, secret) == s
  {
    hide Split, Join, ReplaceAll, Contains;
    var gaps := Split(s, secret);
    ReplaceIsJoin(s, secret, p);
    JoinOfSplit(s, secret);
    GapsOfClean(gaps, secret, p);
    SplitOfJoin(gaps, p);
    ReplaceIsJoin(Join(gaps, p), p, secret);
  }

  /** Texts that are not in the original and do not overlap the substitute do not appear. */
  lemma ReplaceCreatesNone(s: string, secret: string, p: string, y: string)
    requires |secret| > 0 && Apart(y, p) && !Contains(s, y)
    ensures !Contains(ReplaceAll(s, secret, p), y)
  {
    ReplaceIsJoin(s, secret, p);
    JoinOfSplit(s, secret);
    GapsOfClean(Split(s, secret), secret, y);
    JoinCreatesNone(Split(s, secret), p, y);
  }

  /** A replaced text is gone, if it does not overlap the substitute. */
  lemma ReplaceRemoves(s: string, secret: string, p: string)
    requires Apart(secret, p)
    ensures !Contains(ReplaceAll(s, secret, p), secret)
  {
    ReplaceIsJoin(s, secret, p);
    GapsAreClean(s, secret);
    JoinCreatesNone(Split(s, secret), p, secret);
  }

  /** Where there is nothing to replace the text stays as it is. */
  lemma {:induction false} ReplaceNone(s: string, old': string, new': string)
    requires |old'| > 0 && !Contains(s, old')
    ensures ReplaceAll(s, old', new') == s
  {
    if |s| >= |old'| {
      assert s == [s[0]] + s[1..];
      assert !OccursAt(s, 0, old');
      ContainsStep(s[0], s[1..], old');
      ReplaceNone(s[1..], old', new');
    }
  }

  /** Where there is something to replace the substitute appears. */
  lemma {:induction false} ReplaceInserts(s: string, old': string, new': string)
    requires |old'| > 0 && Contains(s, old')
    ensures Contains(ReplaceAll(s, old', new'), new')
  {
    var out := ReplaceAll(s, old', new');
    if s[..|old'|] == old' {
      assert OccursAt(out, 0, new');
    } else {
      assert s == [s[0]] + s[1..];
      ContainsStep(s[0], s[1..], old');
      ReplaceInserts(s[1..], old', new');
      var rest := ReplaceAll(s[1..], old', new');
      var i :| 0 <= i <= |rest| && OccursAt(rest, i, new');
      OccursInRightPart([s[0]], rest, i + 1, new');
      assert OccursAt(out, i + 1, new');
    }
  }

  lemma ContainsTrans(s: string, p: string, q: string)
    requires Contains(s, p) && Contains(p, q)
    ensures Contains(s, q)
  {
    var i :| 0 <= i <= |s| && OccursAt(s, i, p);
    var j :| 0 <= j <= |p| && OccursAt(p, j, q);
    forall k | 0 <= k < |q| ensures s[i + j + k] == q[k] {
      assert s[i..i + |p|][j + k] == p[j..j + |q|][k];
    }
    assert s[i + j..i + j + |q|] == q;
    assert OccursAt(s, i + j, q);
  }
}
