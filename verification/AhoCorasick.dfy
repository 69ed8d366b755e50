/**
 Multi-pattern matching by a completed Aho-Corasick automaton
 (internal/inbound/ahocorasick.go).

 A node of the table stands for a word: the bytes on its path from the root.  The ghost `Trie`
 records that correspondence in both directions; every statement about the table is a statement
 about words.
 */
module AhoCorasick {
  import opened Occurrences

  type Word = seq<byte>

  datatype AcNode = AcNode(next: seq<nat>, fail: nat, output: seq<Word>)

  const BLANK := AcNode(seq(256, _ => 0), 0, [])

  datatype Trie = Trie(words: seq<Word>, index: map<Word, nat>)

  // ---------------------------------------------------------------------------------------------
  // Words, longest suffixes and outputs
  // ---------------------------------------------------------------------------------------------

  /** Words and node numbers are in bijection, the root is the empty word, prefixes are words. */
  ghost predicate WellFormed(t: Trie) {
    && |t.words| > 0
    && t.words[0] == []
    && (forall i :: 0 <= i < |t.words| ==> t.words[i] in t.index && t.index[t.words[i]] == i)
    && (forall w :: w in t.index ==> t.index[w] < |t.words| && t.words[t.index[w]] == w)
    && (forall w: Word, b: byte :: w + [b] in t.index ==> w in t.index)
  }

  /** The suffixes of a non-empty word are the word itself and the suffixes of its tail. */
  lemma SuffixesOf(w: Word)
    requires w != []
    ensures forall u: Word :: IsSuffix(u, w) <==> u == w || IsSuffix(u, w[1..])
  {
    forall u: Word | |u| <= |w| ensures IsSuffix(u, w) <==> u == w || IsSuffix(u, w[1..]) {
      if |u| == |w| {
        assert w[0..] == w;
      } else {
        assert w[1..][|w| - 1 - |u|..] == w[|w| - |u|..];
      }
    }
  }

  /** The longest suffix of `w` that is a word of the trie. */
  ghost function LongestSuffix(t: Trie, w: Word): (r: Word)
    requires WellFormed(t)
    ensures r in t.index && |r| <= |w|
  {
    if w in t.index then w else assert t.words[0] == []; LongestSuffix(t, w[1..])
  }

  lemma {:induction false} LongestSuffixIsLongest(t: Trie, w: Word)
    requires WellFormed(t)
    ensures IsSuffix(LongestSuffix(t, w), w)
    ensures forall u :: u in t.index && IsSuffix(u, w) ==> |u| <= |LongestSuffix(t, w)|
  {
    if w in t.index {
      assert w[0..] == w;
    } else {
      assert t.words[0] == [];
      LongestSuffixIsLongest(t, w[1..]);
      SuffixesOf(w);
    }
  }

  /** Extending a word commutes with taking its longest suffix: what makes one pass enough. */
  lemma {:induction false} LongestSuffixStep(t: Trie, w: Word, b: byte)
    requires WellFormed(t)
    ensures LongestSuffix(t, w + [b]) == LongestSuffix(t, LongestSuffix(t, w) + [b])
  {
    if w !in t.index {
      assert t.words[0] == [];
      assert (w + [b])[..|w|] == w;
      assert (w + [b])[1..] == w[1..] + [b];
      LongestSuffixStep(t, w[1..], b);
    }
  }

  /** The patterns whose cleaned form is exactly `u`, in listing order. */
  ghost function Own(clean: Word -> Word, patterns: seq<Word>, u: Word): seq<Word> {
    if patterns == [] then
      []
    else
      var last := patterns[|patterns| - 1];
      Own(clean, patterns[..|patterns| - 1], u) + (if u != [] && clean(last) == u then [last] else [])
  }

  /** The patterns whose cleaned form is a suffix of `w`: longest first, then in listing order. */
  ghost function SuffixOutputs(clean: Word -> Word, patterns: seq<Word>, w: Word): seq<Word> {
    if w == [] then [] else Own(clean, patterns, w) + SuffixOutputs(clean, patterns, w[1..])
  }

  lemma {:induction false} OwnMember(clean: Word -> Word, patterns: seq<Word>, u: Word)
    ensures Own(clean, patterns, u) != [] <==>
            u != [] && exists k :: 0 <= k < |patterns| && clean(patterns[k]) == u
    ensures Own(clean, patterns, u) != [] ==>
              exists k :: 0 <= k < |patterns| && clean(patterns[k]) == u && Own(clean, patterns, u)[0] == patterns[k]
                          && forall j :: 0 <= j < k ==> clean(patterns[j]) != u
  {
    if patterns != [] {
      var n := |patterns| - 1;
      var front := patterns[..n];
      OwnMember(clean, front, u);
      if Own(clean, front, u) != [] {
        var k :| 0 <= k < |front| && clean(front[k]) == u && Own(clean, front, u)[0] == front[k]
                 && forall j :: 0 <= j < k ==> clean(front[j]) != u;
        assert patterns[k] == front[k];
        assert forall j :: 0 <= j < k ==> patterns[j] == front[j];
      } else if u != [] && clean(patterns[n]) == u {
        assert Own(clean, patterns, u)[0] == patterns[n];
        assert forall j :: 0 <= j < n ==> patterns[j] == front[j];
      } else {
        assert forall j :: 0 <= j < n ==> patterns[j] == front[j];
      }
    }
  }

  /** Every non-empty cleaned pattern is a word of the trie. */
  ghost predicate HasPatterns(clean: Word -> Word, patterns: seq<Word>, t: Trie) {
    forall k :: 0 <= k < |patterns| && clean(patterns[k]) != [] ==> clean(patterns[k]) in t.index
  }

  /** Suffixes that are not words contribute no output. */
  lemma {:induction false} OutputsOfLongestSuffix(clean: Word -> Word, patterns: seq<Word>, t: Trie, w: Word)
    requires WellFormed(t) && HasPatterns(clean, patterns, t)
    ensures SuffixOutputs(clean, patterns, w) == SuffixOutputs(clean, patterns, LongestSuffix(t, w))
  {
    if w !in t.index {
      assert t.words[0] == [];
      OwnMember(clean, patterns, w);
      OutputsOfLongestSuffix(clean, patterns, t, w[1..]);
    }
  }

  /** Pattern number `k` ends at the end of `w`. */
  ghost predicate EndsHere(clean: Word -> Word, patterns: seq<Word>, k: int, w: Word) {
    0 <= k < |patterns| && clean(patterns[k]) != [] && IsSuffix(clean(patterns[k]), w)
  }

  /** `k` is the pattern to report at the end of `w`: a longest one, first listed among those. */
  ghost predicate Preferred(clean: Word -> Word, patterns: seq<Word>, k: int, w: Word) {
    && EndsHere(clean, patterns, k, w)
    && forall j :: EndsHere(clean, patterns, j, w) ==>
         |clean(patterns[j])| < |clean(patterns[k])| || (|clean(patterns[j])| == |clean(patterns[k])| && k <= j)
  }

  /** The head of the output list is the preferred pattern; the list is empty exactly when none ends here. */
  lemma {:induction false} HeadOutput(clean: Word -> Word, patterns: seq<Word>, w: Word)
    ensures SuffixOutputs(clean, patterns, w) == [] ==> forall k :: !EndsHere(clean, patterns, k, w)
    ensures SuffixOutputs(clean, patterns, w) != [] ==>
              exists k :: Preferred(clean, patterns, k, w) && patterns[k] == SuffixOutputs(clean, patterns, w)[0]
  {
    if w != [] {
      HeadOutput(clean, patterns, w[1..]);
      OwnMember(clean, patterns, w);
      SuffixesOf(w);
      assert forall k :: EndsHere(clean, patterns, k, w) ==>
          clean(patterns[k]) == w || EndsHere(clean, patterns, k, w[1..]);
      if Own(clean, patterns, w) != [] {
        var k :| 0 <= k < |patterns| && clean(patterns[k]) == w && Own(clean, patterns, w)[0] == patterns[k]
                 && forall j :: 0 <= j < k ==> clean(patterns[j]) != w;
        assert Preferred(clean, patterns, k, w);
      } else if SuffixOutputs(clean, patterns, w) != [] {
        var k :| Preferred(clean, patterns, k, w[1..]) && patterns[k] == SuffixOutputs(clean, patterns, w[1..])[0];
        assert Preferred(clean, patterns, k, w);
      }
    }
  }

  // ---------------------------------------------------------------------------------------------
  // The node table as a trie and as a complete automaton
  // ---------------------------------------------------------------------------------------------

  ghost function Depth(t: Trie, u: nat): nat {
    if u < |t.words| then |t.words[u]| else 0
  }

  /** The trie edge out of `u` on byte `b`, 0 when there is none. */
  ghost function Child(t: Trie, u: nat, b: byte): nat
    requires u < |t.words|
  {
    var w := t.words[u] + [b];
    if w in t.index then t.index[w] else 0
  }

  /** The node of the longest suffix of word+b that is a word. */
  ghost function Goto(t: Trie, u: nat, b: byte): nat
    requires WellFormed(t) && u < |t.words|
  {
    t.index[LongestSuffix(t, t.words[u] + [b])]
  }

  /** The node of the longest proper suffix of the word of `u` that is a word. */
  ghost function FailOf(t: Trie, u: nat): nat
    requires WellFormed(t) && u < |t.words|
  {
    if t.words[u] == [] then 0 else t.index[LongestSuffix(t, t.words[u][1..])]
  }

  ghost predicate Rows(nodes: seq<AcNode>, t: Trie) {
    && WellFormed(t)
    && |nodes| == |t.words|
    && forall u :: 0 <= u < |nodes| ==> |nodes[u].next| == 256
  }

  ghost predicate IsPrefix(u: Word, w: Word) {
    |u| <= |w| && w[..|u|] == u
  }

  /** `w` is a prefix of a cleaned pattern. */
  ghost predicate IsPatternPrefix(clean: Word -> Word, patterns: seq<Word>, w: Word) {
    exists k :: 0 <= k < |patterns| && IsPrefix(w, clean(patterns[k]))
  }

  ghost predicate IsTrie(clean: Word -> Word, patterns: seq<Word>, nodes: seq<AcNode>, t: Trie) {
    && Rows(nodes, t)
    && (forall u, b: byte :: 0 <= u < |nodes| ==> nodes[u].next[b] == Child(t, u, b))
    && forall u :: 0 <= u < |nodes| ==> nodes[u].fail == 0 && nodes[u].output == Own(clean, patterns, t.words[u])
  }

  ghost predicate Settled(clean: Word -> Word, patterns: seq<Word>, nodes: seq<AcNode>, t: Trie, u: nat)
    requires WellFormed(t) && u < |nodes| == |t.words|
  {
    nodes[u].fail == FailOf(t, u) && nodes[u].output == SuffixOutputs(clean, patterns, t.words[u])
  }

  ghost predicate IsAutomaton(clean: Word -> Word, patterns: seq<Word>, nodes: seq<AcNode>, t: Trie) {
    && Rows(nodes, t)
    && (forall u, b: byte :: 0 <= u < |nodes| ==> nodes[u].next[b] == Goto(t, u, b))
    && forall u :: 0 <= u < |nodes| ==> Settled(clean, patterns, nodes, t, u)
  }

  lemma ChildIsInjective(t: Trie, u: nat, b: byte, u': nat, b': byte)
    requires WellFormed(t) && u < |t.words| && u' < |t.words|
    requires Child(t, u, b) != 0 && Child(t, u, b) == Child(t, u', b')
    ensures u == u' && b == b'
  {
    var w, w' := t.words[u] + [b], t.words[u'] + [b'];
    assert w == w';
    assert w[..|w| - 1] == t.words[u] && w'[..|w'| - 1] == t.words[u'];
    assert w[|w| - 1] == b && w'[|w'| - 1] == b';
  }

  /** Every node but the root is the child of a node one level up. */
  lemma ParentOf(t: Trie, v: nat) returns (u: nat, b: byte)
    requires WellFormed(t) && 0 < v < |t.words|
    ensures u < |t.words| && Depth(t, v) == Depth(t, u) + 1 && Child(t, u, b) == v
  {
    var w := t.words[v];
    assert w != [] by { assert t.words[v] in t.index; }
    b := w[|w| - 1];
    assert w[..|w| - 1] + [b] == w;
    u := t.index[w[..|w| - 1]];
  }

  // ---------------------------------------------------------------------------------------------
  // Breadth-first completion
  // ---------------------------------------------------------------------------------------------

  /** Where the traversal stands: nodes finished, the node in hand with `k` bytes done, nodes waiting. */
  datatype Front = Front(order: seq<nat>, cur: nat, k: nat, queue: seq<nat>) {
    ghost predicate Seen(v: nat) {
      v == cur || v in order || v in queue
    }

    /** How many entries of row `u` already belong to the automaton. */
    ghost function Level(u: nat): nat {
      if u == cur then k else if u in order then 256 else 0
    }
  }

  /** The waiting line is in depth order and spans at most two levels; no node stands in it twice. */
  ghost predicate Ordered(t: Trie, f: Front)
  {
    && f.k <= 256
    && f.cur < |t.words|
    && (forall v :: v in f.order ==> v < |t.words| && v != f.cur && v !in f.queue)
    && (forall v :: v in f.queue ==> v < |t.words| && v != f.cur && v != 0)
    && (forall i, j :: 0 <= i < j < |f.queue| ==> f.queue[i] != f.queue[j])
    && (forall i, j :: 0 <= i < j < |f.order| ==> f.order[i] != f.order[j])
    && (forall v :: v in f.queue ==> Depth(t, f.cur) <= Depth(t, v) <= Depth(t, f.cur) + 1)
    && (forall i, j :: 0 <= i < j < |f.queue| ==> Depth(t, f.queue[i]) <= Depth(t, f.queue[j]))
    && (f.cur != 0 ==> 0 in f.order)
    && (forall v :: v in f.order ==> Depth(t, v) <= Depth(t, f.cur))
    && (forall i, j :: 0 <= i < j < |f.order| ==> Depth(t, f.order[i]) <= Depth(t, f.order[j]))
  }

  /** A node has been seen exactly when the entry of its parent that leads to it has been processed. */
  ghost predicate Discovery(t: Trie, f: Front)
    requires WellFormed(t)
  {
    forall u, b: byte :: 0 <= u < |t.words| && Child(t, u, b) != 0 ==> (f.Seen(Child(t, u, b)) <==> b < f.Level(u))
  }

  /** Rows are automaton where the traversal has been and trie where it has not. */
  ghost predicate HalfBuilt(nodes: seq<AcNode>, t: Trie, f: Front) {
    && Rows(nodes, t)
    && forall u, b: byte :: 0 <= u < |nodes| ==>
         nodes[u].next[b] == if b < f.Level(u) then Goto(t, u, b) else Child(t, u, b)
  }

  /** Seen nodes have their final fail link and outputs, the others their own outputs. */
  ghost predicate HalfSettled(clean: Word -> Word, patterns: seq<Word>, nodes: seq<AcNode>, t: Trie, f: Front)
    requires WellFormed(t) && |nodes| == |t.words|
  {
    forall u :: 0 <= u < |nodes| ==>
      if f.Seen(u) then Settled(clean, patterns, nodes, t, u)
      else nodes[u].output == Own(clean, patterns, t.words[u])
  }

  ghost predicate Traversal(clean: Word -> Word, patterns: seq<Word>, nodes: seq<AcNode>, t: Trie, f: Front) {
    && HalfBuilt(nodes, t, f)
    && HalfSettled(clean, patterns, nodes, t, f)
    && Ordered(t, f)
    && Discovery(t, f)
    && HasPatterns(clean, patterns, t)
  }

  /** All shallower nodes are finished, all nodes of the current depth have been seen. */
  lemma {:induction false} ShallowerIsFinished(t: Trie, f: Front, v: nat)
    requires WellFormed(t) && Ordered(t, f) && Discovery(t, f)
    requires f.cur != 0 && v < |t.words| && Depth(t, v) <= Depth(t, f.cur)
    ensures f.Seen(v)
    ensures Depth(t, v) < Depth(t, f.cur) ==> v in f.order
    decreases Depth(t, v)
  {
    if v != 0 {
      var u, b := ParentOf(t, v);
      ShallowerIsFinished(t, f, u);
      assert f.Level(u) == 256;
    }
  }

  /** On words: the transition of the fail state serves both branches of the traversal. */
  lemma FailTransition(t: Trie, u: nat, b: byte)
    requires WellFormed(t) && 0 < u < |t.words|
    ensures FailOf(t, u) < |t.words| && Depth(t, FailOf(t, u)) < Depth(t, u)
    ensures var g := Goto(t, FailOf(t, u), b);
            && g < |t.words| && Depth(t, g) <= Depth(t, u)
            && (Child(t, u, b) == 0 ==> g == Goto(t, u, b))
            && (Child(t, u, b) != 0 ==> Child(t, u, b) < |t.words| && g == FailOf(t, Child(t, u, b)))
  {
    var w := t.words[u];
    var wb := w + [b];
    assert w in t.index && t.index[w] == u && t.words[0] == [];
    assert wb[1..] == w[1..] + [b];
    LongestSuffixStep(t, w[1..], b);
    if wb in t.index {
      assert t.words[t.index[wb]] == wb;
      assert t.index[wb] != 0;
    }
  }

  /** The fail state of the node in hand is finished, and its target on `b` has been seen. */
  lemma FailEntry(t: Trie, f: Front, b: byte)
    requires WellFormed(t) && Ordered(t, f) && Discovery(t, f) && f.cur != 0
    ensures FailOf(t, f.cur) < |t.words| && FailOf(t, f.cur) in f.order
    ensures Goto(t, FailOf(t, f.cur), b) < |t.words| && f.Seen(Goto(t, FailOf(t, f.cur), b))
  {
    FailTransition(t, f.cur, b);
    ShallowerIsFinished(t, f, FailOf(t, f.cur));
    ShallowerIsFinished(t, f, Goto(t, FailOf(t, f.cur), b));
  }

  lemma ChildWord(t: Trie, u: nat, b: byte)
    requires WellFormed(t) && u < |t.words| && Child(t, u, b) != 0
    ensures var c := Child(t, u, b);
            c < |t.words| && c != u && Depth(t, c) == Depth(t, u) + 1 && Goto(t, u, b) == c
  {
  }

  /** Discovering a child puts it at the end of the line ... */
  lemma DiscoverOrdered(t: Trie, f: Front, c: nat)
    requires Ordered(t, f) && f.k < 256 && 0 < c < |t.words|
    requires !f.Seen(c) && Depth(t, c) == Depth(t, f.cur) + 1
    ensures Ordered(t, f.(k := f.k + 1, queue := f.queue + [c]))
  {
    var f' := f.(k := f.k + 1, queue := f.queue + [c]);
    assert forall v :: v in f'.queue <==> v in f.queue || v == c;
  }

  /** ... and marks exactly the parent entry that leads to it. */
  lemma DiscoverSeen(t: Trie, f: Front, b: byte)
    requires WellFormed(t) && Discovery(t, f) && f.cur < |t.words| && f.k == b && Child(t, f.cur, b) != 0
    ensures !f.Seen(Child(t, f.cur, b))
    ensures Discovery(t, f.(k := b + 1, queue := f.queue + [Child(t, f.cur, b)]))
  {
    var c := Child(t, f.cur, b);
    var f' := f.(k := b + 1, queue := f.queue + [c]);
    assert forall v :: v in f'.queue <==> v in f.queue || v == c;
    forall u, b': byte | 0 <= u < |t.words| && Child(t, u, b') != 0
      ensures f'.Seen(Child(t, u, b')) <==> b' < f'.Level(u)
    {
      if Child(t, u, b') == c {
        ChildIsInjective(t, u, b', f.cur, b);
      }
    }
  }

  /** Taking the next node from the line changes nothing about what has been seen ... */
  lemma AdvanceSeen(t: Trie, f: Front)
    requires WellFormed(t) && Discovery(t, f) && f.k == 256 && f.queue != [] && f.queue[0] !in f.order
    requires f.queue[0] != f.cur
    ensures var f' := Front(f.order + [f.cur], f.queue[0], 0, f.queue[1..]);
            Discovery(t, f') && (forall v :: f'.Seen(v) <==> f.Seen(v)) && (forall u :: f'.Level(u) == f.Level(u))
  {
    var f' := Front(f.order + [f.cur], f.queue[0], 0, f.queue[1..]);
    assert f.queue == [f.queue[0]] + f'.queue;
    assert forall v :: v in f'.order <==> v in f.order || v == f.cur;
    hide WellFormed;
  }

  /** ... and keeps the line in order. */
  lemma AdvanceOrdered(t: Trie, f: Front)
    requires Ordered(t, f) && f.k == 256 && f.queue != []
    ensures Ordered(t, Front(f.order + [f.cur], f.queue[0], 0, f.queue[1..]))
  {
    var rest := f.queue[1..];
    assert forall v :: v in f.queue <==> v == f.queue[0] || v in rest;
    assert forall v :: v in f.order + [f.cur] <==> v in f.order || v == f.cur;
    assert f.queue[0] !in rest;
    hide WellFormed, Depth;
    assert forall i :: 0 <= i < |f.order| ==> (f.order + [f.cur])[i] in f.order;
  }

  /** The two-phase update of a discovered child, seen as one: fail link and inherited outputs. */
  lemma SettleChild(clean: Word -> Word, patterns: seq<Word>, nodes: seq<AcNode>, t: Trie, f: Front, b: byte,
                    child: AcNode)
    requires Traversal(clean, patterns, nodes, t, f) && f.k == b
    requires Child(t, f.cur, b) != 0
    requires var c := Child(t, f.cur, b);
             c < |nodes| && child == AcNode(nodes[c].next, FailOf(t, c), SuffixOutputs(clean, patterns, t.words[c]))
    ensures var c := Child(t, f.cur, b);
            Traversal(clean, patterns, nodes[c := child], t, f.(k := b + 1, queue := f.queue + [c]))
  {
    hide HalfBuilt, HalfSettled, Ordered, Discovery, WellFormed, SuffixOutputs, FailOf, Goto, Child;
    RowsInHand(clean, patterns, nodes, t, f, b);
    var c := Child(t, f.cur, b);
    var f' := f.(k := b + 1, queue := f.queue + [c]);
    ChildWord(t, f.cur, b);
    DiscoverSeen(t, f, b);
    DiscoverOrdered(t, f, c);
    assert forall v :: f'.Seen(v) <==> f.Seen(v) || v == c;
    assert nodes[f.cur].next[b := c] == nodes[f.cur].next;
    BuildEntry(nodes, t, f, nodes[c := child], f', b);
    SettleEntry(clean, patterns, nodes, t, f, f', c, child);
  }

  lemma RowsInHand(clean: Word -> Word, patterns: seq<Word>, nodes: seq<AcNode>, t: Trie, f: Front, b: byte)
    requires Traversal(clean, patterns, nodes, t, f) && f.k == b
    ensures Rows(nodes, t) && f.cur < |nodes| && nodes[f.cur].next[b] == Child(t, f.cur, b)
  {
    hide WellFormed, Goto, HalfSettled, Discovery;
  }

  lemma SettleEntry(clean: Word -> Word, patterns: seq<Word>, nodes: seq<AcNode>, t: Trie, f: Front, f': Front,
                    c: nat, child: AcNode)
    requires WellFormed(t) && |nodes| == |t.words| && HalfSettled(clean, patterns, nodes, t, f) && c < |nodes|
    requires forall v :: f'.Seen(v) <==> f.Seen(v) || v == c
    requires child.fail == FailOf(t, c) && child.output == SuffixOutputs(clean, patterns, t.words[c])
    ensures HalfSettled(clean, patterns, nodes[c := child], t, f')
  {
    hide WellFormed, FailOf, SuffixOutputs, Own;
  }

  /** One more entry of the row in hand has its automaton value. */
  lemma BuildEntry(nodes: seq<AcNode>, t: Trie, f: Front, nodes': seq<AcNode>, f': Front, b: byte)
    requires HalfBuilt(nodes, t, f) && Rows(nodes', t)
    requires f.cur == f'.cur < |nodes| && f.order == f'.order && f.k == b && f'.k == b + 1
    requires forall u :: 0 <= u < |nodes| && u != f.cur ==> nodes'[u].next == nodes[u].next
    requires nodes'[f.cur].next == nodes[f.cur].next[b := Goto(t, f.cur, b)]
    ensures HalfBuilt(nodes', t, f')
  {
    forall u, c: byte | 0 <= u < |nodes'|
      ensures nodes'[u].next[c] == if c < f'.Level(u) then Goto(t, u, c) else Child(t, u, c)
    {
      assert nodes[u].next[c] == if c < f.Level(u) then Goto(t, u, c) else Child(t, u, c);
    }
  }

  /** A missing edge becomes the automaton transition. */
  lemma Redirect(clean: Word -> Word, patterns: seq<Word>, nodes: seq<AcNode>, t: Trie, f: Front, b: byte)
    requires Traversal(clean, patterns, nodes, t, f) && f.k == b && Child(t, f.cur, b) == 0
    ensures var row := nodes[f.cur].(next := nodes[f.cur].next[b := Goto(t, f.cur, b)]);
            Traversal(clean, patterns, nodes[f.cur := row], t, f.(k := b + 1))
  {
    var f' := f.(k := b + 1);
    var row := nodes[f.cur].(next := nodes[f.cur].next[b := Goto(t, f.cur, b)]);
    BuildEntry(nodes, t, f, nodes[f.cur := row], f', b);
    RedirectSeen(t, f, b);
    assert f.Seen(f.cur);
    SettleEntry(clean, patterns, nodes, t, f, f', f.cur, row);
    hide HalfBuilt, HalfSettled, Discovery, WellFormed, Goto;
  }

  lemma RedirectSeen(t: Trie, f: Front, b: byte)
    requires WellFormed(t) && Discovery(t, f) && f.cur < |t.words| && f.k == b && Child(t, f.cur, b) == 0
    ensures Discovery(t, f.(k := b + 1))
    ensures forall v :: f.(k := b + 1).Seen(v) <==> f.Seen(v)
  {
    var f' := f.(k := b + 1);
    forall u, c: byte | 0 <= u < |t.words| && Child(t, u, c) != 0
      ensures f'.Seen(Child(t, u, c)) <==> c < f'.Level(u)
    {
      assert f.Seen(Child(t, u, c)) <==> c < f.Level(u);
    }
  }

  /** The root is its own fail state: its children fail to it and its missing edges loop on it. */
  lemma RootEntries(clean: Word -> Word, patterns: seq<Word>, t: Trie, b: byte)
    requires WellFormed(t)
    ensures Child(t, 0, b) == 0 ==> Goto(t, 0, b) == 0
    ensures Child(t, 0, b) != 0 ==>
              var c := Child(t, 0, b);
              c < |t.words| && FailOf(t, c) == 0
              && SuffixOutputs(clean, patterns, t.words[c]) == Own(clean, patterns, t.words[c])
  {
    var w := [b];
    assert t.words[0] == [] && t.words[0] + [b] == w && w[1..] == [];
    if w !in t.index {
      assert LongestSuffix(t, w) == LongestSuffix(t, []);
    }
  }

  /** A child settled from its fail state inherits exactly the outputs it lacks. */
  lemma InheritOutputs(clean: Word -> Word, patterns: seq<Word>, t: Trie, c: nat)
    requires WellFormed(t) && HasPatterns(clean, patterns, t) && 0 < c < |t.words|
    ensures FailOf(t, c) < |t.words|
    ensures SuffixOutputs(clean, patterns, t.words[c])
         == Own(clean, patterns, t.words[c]) + SuffixOutputs(clean, patterns, t.words[FailOf(t, c)])
  {
    var w := t.words[c];
    assert w in t.index && t.index[w] == c && t.words[0] == [];
    OutputsOfLongestSuffix(clean, patterns, t, w[1..]);
  }

  /** The nodes still to be taken from the line. */
  ghost function Unfinished(n: nat, f: Front): set<nat> {
    set v: nat | v < n && v !in f.order && v != f.cur
  }

  /** With the line empty, every node has been finished. */
  lemma {:induction false} AllFinished(t: Trie, f: Front, v: nat)
    requires WellFormed(t) && Ordered(t, f) && Discovery(t, f)
    requires f.k == 256 && f.queue == [] && v < |t.words|
    ensures v == f.cur || v in f.order
    decreases Depth(t, v)
  {
    if v != 0 {
      var u, b := ParentOf(t, v);
      AllFinished(t, f, u);
    }
  }

  /** Before the traversal only the root has been seen. */
  lemma Start(clean: Word -> Word, patterns: seq<Word>, nodes: seq<AcNode>, t: Trie)
    requires IsTrie(clean, patterns, nodes, t) && HasPatterns(clean, patterns, t)
    ensures Traversal(clean, patterns, nodes, t, Front([], 0, 0, []))
  {
    assert t.words[0] == [];
    OwnMember(clean, patterns, []);
  }

  lemma NextInLine(clean: Word -> Word, patterns: seq<Word>, nodes: seq<AcNode>, t: Trie, f: Front)
    requires Traversal(clean, patterns, nodes, t, f) && f.k == 256 && f.queue != []
    ensures var f' := Front(f.order + [f.cur], f.queue[0], 0, f.queue[1..]);
            Traversal(clean, patterns, nodes, t, f') && f'.cur != 0
            && Unfinished(|nodes|, f') < Unfinished(|nodes|, f)
  {
    assert f.queue[0] in f.queue;
    AdvanceSeen(t, f);
    AdvanceOrdered(t, f);
    assert f.queue[0] != 0 && f.queue[0] < |nodes| && f.queue[0] !in f.order && f.queue[0] != f.cur;
    hide Ordered, Discovery;
    var f' := Front(f.order + [f.cur], f.queue[0], 0, f.queue[1..]);
    assert forall v :: v in f'.order <==> v in f.order || v == f.cur;
    assert f'.cur in Unfinished(|nodes|, f) && f'.cur !in Unfinished(|nodes|, f');
  }

  /** What the table holds for the entry in hand and for its fail state. */
  lemma EntryInHand(clean: Word -> Word, patterns: seq<Word>, nodes: seq<AcNode>, t: Trie, f: Front, b: byte)
    requires Traversal(clean, patterns, nodes, t, f) && f.k == b
    ensures f.cur < |nodes| && |nodes[f.cur].next| == 256
    ensures nodes[f.cur].next[b] == Child(t, f.cur, b) < |nodes|
    ensures f.cur != 0 ==>
              var fail := nodes[f.cur].fail;
              fail == FailOf(t, f.cur) < |nodes| && fail != f.cur
              && |nodes[fail].next| == 256 && nodes[fail].next[b] == Goto(t, fail, b) < |nodes|
  {
    assert f.Seen(f.cur);
    if Child(t, f.cur, b) != 0 {
      ChildWord(t, f.cur, b);
    }
    if f.cur != 0 {
      FailEntry(t, f, b);
      FailTransition(t, f.cur, b);
    }
  }

  /** A child of the root fails to the root and inherits nothing. */
  lemma RootChild(clean: Word -> Word, patterns: seq<Word>, nodes: seq<AcNode>, t: Trie, f: Front, b: byte)
    requires Traversal(clean, patterns, nodes, t, f) && f.k == b && f.cur == 0 && Child(t, 0, b) != 0
    ensures var c := Child(t, 0, b);
            c < |nodes|
            && Traversal(clean, patterns, nodes[c := nodes[c].(fail := 0)], t, f.(k := b + 1, queue := f.queue + [c]))
  {
    RootEntries(clean, patterns, t, b);
    DiscoverSeen(t, f, b);
    SettleChild(clean, patterns, nodes, t, f, b, nodes[Child(t, 0, b)].(fail := 0));
  }

  /** A missing edge of the root already leads to the root. */
  lemma RootMissing(clean: Word -> Word, patterns: seq<Word>, nodes: seq<AcNode>, t: Trie, f: Front, b: byte)
    requires Traversal(clean, patterns, nodes, t, f) && f.k == b && f.cur == 0 && Child(t, 0, b) == 0
    ensures Traversal(clean, patterns, nodes, t, f.(k := b + 1))
  {
    RootEntries(clean, patterns, t, b);
    Redirect(clean, patterns, nodes, t, f, b);
    assert nodes[0].next[b] == 0;
    assert nodes[0].next[b := 0] == nodes[0].next;
    assert nodes[0 := nodes[0]] == nodes;
  }

  /** The child of the node in hand takes the fail state's target as its fail link and appends its outputs. */
  lemma InheritFromFail(clean: Word -> Word, patterns: seq<Word>, nodes: seq<AcNode>, t: Trie, f: Front, b: byte)
    requires Traversal(clean, patterns, nodes, t, f) && f.k == b && f.cur != 0 && Child(t, f.cur, b) != 0
    ensures var c := Child(t, f.cur, b);
            var g := Goto(t, FailOf(t, f.cur), b);
            c < |nodes| && g < |nodes| && c != f.cur
            && var linked := nodes[c := nodes[c].(fail := g)];
               var inherited := if |linked[g].output| > 0
                                then linked[c := linked[c].(output := linked[c].output + linked[g].output)]
                                else linked;
               Traversal(clean, patterns, inherited, t, f.(k := b + 1, queue := f.queue + [c]))
  {
    var c := Child(t, f.cur, b);
    var g := Goto(t, FailOf(t, f.cur), b);
    FailEntry(t, f, b);
    FailTransition(t, f.cur, b);
    DiscoverSeen(t, f, b);
    ChildWord(t, f.cur, b);
    InheritOutputs(clean, patterns, t, c);
    var linked := nodes[c := nodes[c].(fail := g)];
    var whole := AcNode(nodes[c].next, g, nodes[c].output + nodes[g].output);
    assert Settled(clean, patterns, nodes, t, g);
    SettleChild(clean, patterns, nodes, t, f, b, whole);
    hide *;
    if |linked[g].output| > 0 {
      assert linked[c := linked[c].(output := linked[c].output + linked[g].output)] == nodes[c := whole];
    } else {
      assert nodes[c].output + nodes[g].output == nodes[c].output;
    }
  }

  /** The node in hand takes the fail state's target on a missing byte. */
  lemma RedirectToFail(clean: Word -> Word, patterns: seq<Word>, nodes: seq<AcNode>, t: Trie, f: Front, b: byte)
    requires Traversal(clean, patterns, nodes, t, f) && f.k == b && f.cur != 0 && Child(t, f.cur, b) == 0
    ensures f.cur < |nodes| && |nodes[f.cur].next| == 256
    ensures var row := nodes[f.cur].(next := nodes[f.cur].next[b := Goto(t, FailOf(t, f.cur), b)]);
            Traversal(clean, patterns, nodes[f.cur := row], t, f.(k := b + 1))
  {
    FailTransition(t, f.cur, b);
    Redirect(clean, patterns, nodes, t, f, b);
  }

  /** The traversal ends with the complete automaton ... */
  lemma FinishTable(clean: Word -> Word, patterns: seq<Word>, nodes: seq<AcNode>, t: Trie, f: Front)
    requires Traversal(clean, patterns, nodes, t, f) && f.k == 256 && f.queue == []
    ensures IsAutomaton(clean, patterns, nodes, t)
  {
    forall u | 0 <= u < |nodes| ensures f.Seen(u) && f.Level(u) == 256 {
      AllFinished(t, f, u);
    }
  }

  /** ... every node having been taken once, in depth order. */
  lemma FinishOrder(t: Trie, f: Front)
    requires WellFormed(t) && Ordered(t, f) && Discovery(t, f) && f.k == 256 && f.queue == []
    ensures var order := f.order + [f.cur];
            (forall v :: 0 <= v < |t.words| ==> v in order)
            && forall i, j :: 0 <= i < j < |order| ==> order[i] != order[j] && Depth(t, order[i]) <= Depth(t, order[j])
  {
    var order := f.order + [f.cur];
    assert order[|f.order|] == f.cur;
    assert forall i :: 0 <= i < |f.order| ==> order[i] == f.order[i] && order[i] in f.order;
    forall v | 0 <= v < |t.words| ensures v in order {
      AllFinished(t, f, v);
    }
  }

  // ---------------------------------------------------------------------------------------------
  // Inserting patterns
  // ---------------------------------------------------------------------------------------------

  /** The words are the prefixes of the first cleaned patterns and of `part`. */
  ghost predicate WordsAre(clean: Word -> Word, patterns: seq<Word>, part: Word, t: Trie) {
    forall w :: w in t.index <==> w == [] || IsPatternPrefix(clean, patterns, w) || IsPrefix(w, part)
  }

  /** Appending a blank node under `u` adds exactly one word. */
  lemma AddNode(clean: Word -> Word, patterns: seq<Word>, nodes: seq<AcNode>, t: Trie, u: nat, b: byte)
    requires IsTrie(clean, patterns, nodes, t) && HasPatterns(clean, patterns, t)
    requires u < |nodes| && Child(t, u, b) == 0
    ensures var w := t.words[u] + [b];
            var t' := Trie(t.words + [w], t.index[w := |nodes|]);
            var grown := nodes + [BLANK];
            w !in t.index
            && IsTrie(clean, patterns, grown[u := grown[u].(next := grown[u].next[b := |nodes|])], t')
            && HasPatterns(clean, patterns, t')
  {
    var w := t.words[u] + [b];
    assert w !in t.index by { assert t.words[0] == []; }
    var t' := Trie(t.words + [w], t.index[w := |nodes|]);
    assert w[..|w| - 1] == t.words[u];
    OwnMember(clean, patterns, w);
    var grown := nodes + [BLANK];
    var nodes' := grown[u := grown[u].(next := grown[u].next[b := |nodes|])];
    forall v, b': byte | 0 <= v < |nodes'| ensures nodes'[v].next[b'] == Child(t', v, b') {
      var w' := t'.words[v] + [b'];
      assert w'[..|w'| - 1] == t'.words[v] && w'[|w'| - 1] == b';
      assert w' == w ==> v == u && b' == b by {
        if w' == w {
          assert t'.words[v] == t.words[u];
          assert t'.words[v] in t'.index && t.words[u] in t.index;
        }
      }
    }
  }

  /** Listing one more pattern changes the outputs of exactly the node of its cleaned form. */
  lemma AddPattern(clean: Word -> Word, patterns: seq<Word>, p: Word, u: Word)
    ensures Own(clean, patterns + [p], u)
         == Own(clean, patterns, u) + (if u != [] && u == clean(p) then [p] else [])
    ensures IsPatternPrefix(clean, patterns + [p], u) <==> IsPatternPrefix(clean, patterns, u) || IsPrefix(u, clean(p))
  {
    var all := patterns + [p];
    assert all[..|all| - 1] == patterns && all[|all| - 1] == p;
    assert forall k :: 0 <= k < |patterns| ==> all[k] == patterns[k];
  }

  lemma PrefixesOf(c: Word, i: nat)
    requires i < |c|
    ensures forall w: Word :: IsPrefix(w, c[..i + 1]) <==> IsPrefix(w, c[..i]) || w == c[..i + 1]
  {
    forall w: Word | |w| <= i ensures IsPrefix(w, c[..i + 1]) <==> IsPrefix(w, c[..i]) {
      assert c[..i + 1][..|w|] == c[..i][..|w|];
    }
  }

  /** A pattern being inserted: `part` has been spelled and ends at node `curr`. */
  ghost predicate Inserting(clean: Word -> Word, patterns: seq<Word>, part: Word, nodes: seq<AcNode>, t: Trie,
                            curr: nat)
  {
    && IsTrie(clean, patterns, nodes, t)
    && WordsAre(clean, patterns, part, t)
    && curr < |nodes|
    && t.words[curr] == part
  }

  lemma TrieStart(clean: Word -> Word, nodes: seq<AcNode>, t: Trie)
    requires nodes == [BLANK] && t == Trie([[]], map[[] := 0])
    ensures IsTrie(clean, [], nodes, t) && WordsAre(clean, [], [], t)
  {
  }

  lemma WordsFinal(clean: Word -> Word, patterns: seq<Word>, t: Trie)
    requires WordsAre(clean, patterns, [], t)
    ensures HasPatterns(clean, patterns, t)
    ensures forall w :: w in t.index <==> w == [] || IsPatternPrefix(clean, patterns, w)
  {
    forall k | 0 <= k < |patterns| ensures clean(patterns[k]) in t.index {
      assert IsPrefix(clean(patterns[k]), clean(patterns[k]));
    }
  }

  lemma InsertStart(clean: Word -> Word, patterns: seq<Word>, nodes: seq<AcNode>, t: Trie)
    requires IsTrie(clean, patterns, nodes, t) && WordsAre(clean, patterns, [], t)
    ensures Inserting(clean, patterns, [], nodes, t, 0)
  {
  }

  lemma WordsGrow(clean: Word -> Word, patterns: seq<Word>, part: Word, b: byte, t: Trie, t': Trie)
    requires WordsAre(clean, patterns, part, t)
    requires forall w :: w in t'.index <==> w in t.index || w == part + [b]
    ensures WordsAre(clean, patterns, part + [b], t')
  {
    var c := part + [b];
    assert c[..|part| + 1] == c && c[..|part|] == part;
    PrefixesOf(c, |part|);
  }

  /** One byte further along an existing edge, or along a fresh one. */
  lemma InsertByte(clean: Word -> Word, patterns: seq<Word>, part: Word, nodes: seq<AcNode>, t: Trie, curr: nat,
                   b: byte)
    requires Inserting(clean, patterns, part, nodes, t, curr)
    ensures nodes[curr].next[b] != 0 ==> Inserting(clean, patterns, part + [b], nodes, t, nodes[curr].next[b])
    ensures nodes[curr].next[b] == 0 ==>
              var grown := nodes + [BLANK];
              Inserting(clean, patterns, part + [b],
                        grown[curr := grown[curr].(next := grown[curr].next[b := |nodes|])],
                        Trie(t.words + [part + [b]], t.index[part + [b] := |nodes|]), |nodes|)
  {
    var w := part + [b];
    if nodes[curr].next[b] != 0 {
      WordsGrow(clean, patterns, part, b, t, t);
    } else {
      forall k | 0 <= k < |patterns| && clean(patterns[k]) != [] ensures clean(patterns[k]) in t.index {
        assert IsPrefix(clean(patterns[k]), clean(patterns[k]));
      }
      AddNode(clean, patterns, nodes, t, curr, b);
      WordsGrow(clean, patterns, part, b, t, Trie(t.words + [w], t.index[w := |nodes|]));
    }
  }

  /** The pattern spelled to its end is listed at its node. */
  lemma InsertEnd(clean: Word -> Word, patterns: seq<Word>, p: Word, nodes: seq<AcNode>, t: Trie, curr: nat)
    requires Inserting(clean, patterns, clean(p), nodes, t, curr)
    ensures var listed := if clean(p) == [] then nodes
                          else nodes[curr := nodes[curr].(output := nodes[curr].output + [p])];
            IsTrie(clean, patterns + [p], listed, t) && WordsAre(clean, patterns + [p], [], t)
  {
    var listed := if clean(p) == [] then nodes
                  else nodes[curr := nodes[curr].(output := nodes[curr].output + [p])];
    forall u | 0 <= u < |listed| ensures listed[u].output == Own(clean, patterns + [p], t.words[u]) {
      AddPattern(clean, patterns, p, t.words[u]);
      assert t.words[u] in t.index && t.words[curr] in t.index;
    }
    forall w ensures w in t.index <==> w == [] || IsPatternPrefix(clean, patterns + [p], w) || IsPrefix(w, []) {
      AddPattern(clean, patterns, p, w);
    }
  }

  /** The sum of the cleaned lengths: with the root, an upper bound on node numbers. */
  ghost function TotalLength(clean: Word -> Word, patterns: seq<Word>): nat {
    if patterns == [] then 0
    else TotalLength(clean, patterns[..|patterns| - 1]) + |clean(patterns[|patterns| - 1])|
  }

  // ---------------------------------------------------------------------------------------------
  // Searching
  // ---------------------------------------------------------------------------------------------

  /** ASCII lower-casing of one byte, the only folding the search does. */
  function LowerByte(b: byte): byte {
    if 65 <= b <= 90 then b + 32 else b
  }

  function Lower(text: Word): Word {
    seq(|text|, i requires 0 <= i < |text| => LowerByte(text[i]))
  }

  ghost predicate NoCapitals(text: Word) {
    forall i :: 0 <= i < |text| ==> !(65 <= text[i] <= 90)
  }

  /** `low` is `text` with small letters for capitals and nothing else changed. */
  ghost predicate IsFolded(text: Word, low: Word) {
    && |low| == |text|
    && NoCapitals(low)
    && forall i :: 0 <= i < |text| ==> low[i] == text[i] || (65 <= text[i] <= 90 && low[i] == text[i] + 32)
  }

  /** Lowering is the one way to fold all capitals. */
  lemma LowerIsFolding(text: Word)
    ensures forall low :: IsFolded(text, low) <==> low == Lower(text)
    ensures NoCapitals(text) ==> Lower(text) == text
  {
    forall low ensures IsFolded(text, low) <==> low == Lower(text) {
      if IsFolded(text, low) {
        assert forall i :: 0 <= i < |text| ==> low[i] == Lower(text)[i];
      }
    }
  }

  /** A text without capitals is searched as it is, and a capital letter is as good as its small one. */
  lemma CaseDoesNotMatter(text: Word)
    ensures (forall i :: 0 <= i < |text| ==> !(65 <= text[i] <= 90)) ==> Lower(text) == text
    ensures forall i :: 0 <= i < |text| && 65 <= text[i] <= 90 ==> Lower(text[i := text[i] + 32]) == Lower(text)
  {
    forall i | 0 <= i < |text| && 65 <= text[i] <= 90 ensures Lower(text[i := text[i] + 32]) == Lower(text) {
      var small := text[i := text[i] + 32];
      assert |Lower(small)| == |Lower(text)| && forall k :: 0 <= k < |text| ==> Lower(small)[k] == Lower(text)[k];
    }
  }

  /** Some pattern ends right after the first `e` bytes. */
  ghost predicate MatchEndsAt(clean: Word -> Word, patterns: seq<Word>, low: Word, e: int) {
    0 <= e <= |low| && exists k :: EndsHere(clean, patterns, k, low[..e])
  }

  /** `p` is the pattern to report for `low`: preferred at the earliest end of any match. */
  ghost predicate IsFirstMatch(clean: Word -> Word, patterns: seq<Word>, low: Word, p: Word) {
    exists e, k :: 0 <= e <= |low| && Preferred(clean, patterns, k, low[..e]) && patterns[k] == p
                   && forall e' :: 0 <= e' < e ==> !MatchEndsAt(clean, patterns, low, e')
  }

  /** One transition keeps the current node at the longest suffix read that is a word, with its outputs. */
  lemma SearchStep(clean: Word -> Word, patterns: seq<Word>, nodes: seq<AcNode>, t: Trie, w: Word, b: byte, curr: nat)
    requires IsAutomaton(clean, patterns, nodes, t) && HasPatterns(clean, patterns, t)
    requires curr < |nodes| && t.words[curr] == LongestSuffix(t, w)
    ensures |nodes[curr].next| == 256 && nodes[curr].next[b] < |nodes|
    ensures |nodes| == |t.words| && t.words[nodes[curr].next[b]] == LongestSuffix(t, w + [b])
    ensures nodes[nodes[curr].next[b]].output == SuffixOutputs(clean, patterns, w + [b])
  {
    LongestSuffixStep(t, w, b);
    OutputsOfLongestSuffix(clean, patterns, t, w + [b]);
    assert Settled(clean, patterns, nodes, t, nodes[curr].next[b]);
  }

  /** A cleaned pattern is a substring exactly when it ends somewhere. */
  lemma SubstringEndsSomewhere(clean: Word -> Word, patterns: seq<Word>, low: Word)
    ensures (exists e :: 0 <= e <= |low| && MatchEndsAt(clean, patterns, low, e)) <==>
            ContainsPattern(clean, patterns, low)
  {
    forall e, k | 0 <= e <= |low| && EndsHere(clean, patterns, k, low[..e])
      ensures Contains(low, clean(patterns[k]))
    {
      var u := clean(patterns[k]);
      assert low[e - |u|..e] == low[..e][e - |u|..];
      assert OccursAt(low, e - |u|, u);
    }
    forall k, i | 0 <= k < |patterns| && clean(patterns[k]) != [] && OccursAt(low, i, clean(patterns[k]))
      ensures MatchEndsAt(clean, patterns, low, i + |clean(patterns[k])|)
    {
      var u := clean(patterns[k]);
      assert low[i..i + |u|] == low[..i + |u|][i..];
      assert EndsHere(clean, patterns, k, low[..i + |u|]);
    }
  }

  /** Looking at the outputs decides whether a match ends here, and the head of the list is the report. */
  lemma Report(clean: Word -> Word, patterns: seq<Word>, low: Word, e: nat)
    requires e <= |low| && forall e' :: 0 <= e' < e ==> !MatchEndsAt(clean, patterns, low, e')
    ensures MatchEndsAt(clean, patterns, low, e) <==> SuffixOutputs(clean, patterns, low[..e]) != []
    ensures var outputs := SuffixOutputs(clean, patterns, low[..e]);
            outputs != [] ==> IsFirstMatch(clean, patterns, low, outputs[0])
  {
    HeadOutput(clean, patterns, low[..e]);
  }

  /** After `i` bytes: the automaton is at the longest suffix read that is a word, and nothing has matched yet. */
  ghost predicate Scanning(clean: Word -> Word, patterns: seq<Word>, nodes: seq<AcNode>, t: Trie, low: Word, i: nat,
                           curr: nat)
  {
    && IsAutomaton(clean, patterns, nodes, t)
    && HasPatterns(clean, patterns, t)
    && i <= |low|
    && curr < |nodes|
    && t.words[curr] == LongestSuffix(t, low[..i])
    && forall e :: 0 <= e <= i ==> !MatchEndsAt(clean, patterns, low, e)
  }

  /** Some non-empty cleaned pattern is a contiguous substring. */
  ghost predicate ContainsPattern(clean: Word -> Word, patterns: seq<Word>, low: Word) {
    exists k :: 0 <= k < |patterns| && clean(patterns[k]) != [] && Contains(low, clean(patterns[k]))
  }

  lemma ScanStart(clean: Word -> Word, patterns: seq<Word>, nodes: seq<AcNode>, t: Trie, low: Word)
    requires IsAutomaton(clean, patterns, nodes, t) && HasPatterns(clean, patterns, t)
    ensures Scanning(clean, patterns, nodes, t, low, 0, 0)
  {
    assert low[..0] == [];
    Report(clean, patterns, low, 0);
  }

  lemma ScanByte(clean: Word -> Word, patterns: seq<Word>, nodes: seq<AcNode>, t: Trie, low: Word, i: nat, curr: nat)
    requires Scanning(clean, patterns, nodes, t, low, i, curr) && i < |low|
    ensures curr < |nodes| && |nodes[curr].next| == 256 && nodes[curr].next[low[i]] < |nodes|
    ensures var outputs := nodes[nodes[curr].next[low[i]]].output;
            if outputs == [] then Scanning(clean, patterns, nodes, t, low, i + 1, nodes[curr].next[low[i]])
            else ContainsPattern(clean, patterns, low) && IsFirstMatch(clean, patterns, low, outputs[0])
  {
    assert low[..i + 1] == low[..i] + [low[i]];
    SearchStep(clean, patterns, nodes, t, low[..i], low[i], curr);
    Report(clean, patterns, low, i + 1);
    SubstringEndsSomewhere(clean, patterns, low);
  }

  lemma ScanEnd(clean: Word -> Word, patterns: seq<Word>, nodes: seq<AcNode>, t: Trie, low: Word, curr: nat)
    requires Scanning(clean, patterns, nodes, t, low, |low|, curr)
    ensures !ContainsPattern(clean, patterns, low)
  {
    SubstringEndsSomewhere(clean, patterns, low);
  }

  /** The report is unique. */
  lemma FirstMatchIsUnique(clean: Word -> Word, patterns: seq<Word>, low: Word, p: Word, q: Word)
    requires IsFirstMatch(clean, patterns, low, p) && IsFirstMatch(clean, patterns, low, q)
    ensures p == q
  {
    var e, k :| 0 <= e <= |low| && Preferred(clean, patterns, k, low[..e]) && patterns[k] == p
                && forall e' :: 0 <= e' < e ==> !MatchEndsAt(clean, patterns, low, e');
    var d, j :| 0 <= d <= |low| && Preferred(clean, patterns, j, low[..d]) && patterns[j] == q
                && forall e' :: 0 <= e' < d ==> !MatchEndsAt(clean, patterns, low, e');
    assert MatchEndsAt(clean, patterns, low, e) && MatchEndsAt(clean, patterns, low, d);
    assert e == d;
  }

  /**
   Said with occurrences alone: the report occurs in the text, and every other occurrence of a pattern ends later, or
   ends there too but is shorter, or is as long but was not listed before.
   */
  lemma ReportIsBest(clean: Word -> Word, patterns: seq<Word>, low: Word, p: Word)
    requires IsFirstMatch(clean, patterns, low, p)
    ensures exists k: nat, i :: k < |patterns| && patterns[k] == p && clean(p) != [] && OccursAt(low, i, clean(p))
              && forall j: nat, h ::
                   j < |patterns| && clean(patterns[j]) != [] && OccursAt(low, h, clean(patterns[j])) ==>
                     var m, n := |clean(p)|, |clean(patterns[j])|;
                     i + m < h + n || (i + m == h + n && (n < m || (n == m && k <= j)))
  {
    var e, k :| 0 <= e <= |low| && Preferred(clean, patterns, k, low[..e]) && patterns[k] == p
                && forall e' :: 0 <= e' < e ==> !MatchEndsAt(clean, patterns, low, e');
    var u := clean(p);
    var i := e - |u|;
    assert low[..e][i..] == low[i..e];
    assert OccursAt(low, i, u);
    forall j: nat, h | j < |patterns| && clean(patterns[j]) != [] && OccursAt(low, h, clean(patterns[j]))
      ensures var d := h + |clean(patterns[j])|;
              e < d || (e == d && (|clean(patterns[j])| < |u| || (|clean(patterns[j])| == |u| && k <= j)))
    {
      var d := h + |clean(patterns[j])|;
      assert low[..d][h..] == low[h..d];
      assert EndsHere(clean, patterns, j, low[..d]);
      assert MatchEndsAt(clean, patterns, low, d);
    }
  }

  /** The answer for the lowered text is the answer for every folding of it. */
  lemma AnswerForFolded(clean: Word -> Word, patterns: seq<Word>, text: Word, found: bool, pattern: Word)
    requires found <==> ContainsPattern(clean, patterns, Lower(text))
    requires found ==> IsFirstMatch(clean, patterns, Lower(text), pattern)
    ensures forall low :: IsFolded(text, low) ==>
              (found <==> ContainsPattern(clean, patterns, low))
              && (found ==> IsFirstMatch(clean, patterns, low, pattern))
    ensures NoCapitals(text) ==>
              (found <==> ContainsPattern(clean, patterns, text))
              && (found ==> IsFirstMatch(clean, patterns, text, pattern))
  {
    LowerIsFolding(text);
    hide ContainsPattern, IsFirstMatch, IsFolded, NoCapitals, Lower;
  }

  // ---------------------------------------------------------------------------------------------
  // The matcher
  // ---------------------------------------------------------------------------------------------

  /**
   The matcher.  `clean` stands for trimming and lower-casing a pattern; nothing is assumed about it,
   so every statement holds for whatever cleaning is used.
   */
  class AhoCorasick {
    var nodes: seq<AcNode>
    ghost var clean: Word -> Word
    ghost var patterns: seq<Word>
    ghost var trie: Trie

    ghost predicate Valid()
      reads this
    {
      && IsAutomaton(clean, patterns, nodes, trie)
      && HasPatterns(clean, patterns, trie)
    }

    /** Builds the trie pattern by pattern, then completes it breadth first. */
    constructor (patterns: seq<Word>, clean: Word -> Word)
      ensures Valid() && this.patterns == patterns && this.clean == clean
      ensures forall w :: w in trie.index <==> w == [] || IsPatternPrefix(clean, patterns, w)
      ensures |nodes| <= 1 + TotalLength(clean, patterns)
    {
      nodes := [BLANK];
      this.patterns := [];
      this.clean := clean;
      trie := Trie([[]], map[[] := 0]);
      new;
      TrieStart(clean, nodes, trie);
      hide IsTrie, WordsAre;
      for i := 0 to |patterns|
        invariant this.clean == clean && this.patterns == patterns[..i]
        invariant IsTrie(clean, patterns[..i], nodes, trie) && WordsAre(clean, patterns[..i], [], trie)
        invariant |nodes| <= 1 + TotalLength(clean, patterns[..i])
      {
        assert patterns[..i + 1] == patterns[..i] + [patterns[i]];
        assert patterns[..i + 1][..i] == patterns[..i];
        Insert(patterns[i], clean(patterns[i]));
      }
      assert patterns[..|patterns|] == patterns;
      WordsFinal(clean, patterns, trie);
      var order := Complete();
    }

    /**
     The breadth-first pass: fail links, inherited outputs and missing transitions, written into the
     table while it is being read.  `order` lists the nodes in the order they were taken from the line.
     */
    method Complete() returns (ghost order: seq<nat>)
      requires IsTrie(clean, patterns, nodes, trie) && HasPatterns(clean, patterns, trie)
      modifies this`nodes
      ensures Valid() && |nodes| == old(|nodes|)
      ensures forall v :: 0 < v < |nodes| ==> v in order
      ensures forall i, j :: 0 <= i < j < |order| ==>
                order[i] != order[j] && Depth(trie, order[i]) <= Depth(trie, order[j])
    {
      var queue: seq<nat> := [];
      ghost var f := Front([], 0, 0, []);
      Start(clean, patterns, nodes, trie);
      queue, f := CompleteRoot(f);
      while |queue| > 0
        invariant f == Front(f.order, f.cur, 256, queue)
        invariant Traversal(clean, patterns, nodes, trie, f) && |nodes| == old(|nodes|)
        decreases Unfinished(|nodes|, f)
      {
        NextInLine(clean, patterns, nodes, trie, f);
        var curr := queue[0];
        queue := queue[1..];
        f := Front(f.order + [f.cur], curr, 0, queue);
        var failState := nodes[curr].fail;
        queue, f := CompleteRow(curr, failState, queue, f);
      }
      order := f.order + [f.cur];
      FinishTable(clean, patterns, nodes, trie, f);
      FinishOrder(trie, f);
    }

    /** The root's own row: its children start the line, its missing edges stay on the root. */
    method CompleteRoot(ghost f0: Front) returns (queue: seq<nat>, ghost f: Front)
      requires f0 == Front([], 0, 0, []) && Traversal(clean, patterns, nodes, trie, f0)
      modifies this`nodes
      ensures f == Front([], 0, 256, queue) && Traversal(clean, patterns, nodes, trie, f) && |nodes| == old(|nodes|)
    {
      hide Traversal;
      queue, f := [], f0;
      for b := 0 to 256
        invariant f == Front([], 0, b, queue)
        invariant Traversal(clean, patterns, nodes, trie, f) && |nodes| == old(|nodes|)
      {
        EntryInHand(clean, patterns, nodes, trie, f, b);
        var child := nodes[0].next[b];
        if child != 0 {
          RootChild(clean, patterns, nodes, trie, f, b);
          nodes := nodes[child := nodes[child].(fail := 0)];
          queue := queue + [child];
        } else {
          RootMissing(clean, patterns, nodes, trie, f, b);
        }
        f := Front([], 0, b + 1, queue);
      }
    }

    /** The row of a node taken from the line: the body of the breadth-first loop. */
    method CompleteRow(curr: nat, failState: nat, line: seq<nat>, ghost f0: Front)
      returns (queue: seq<nat>, ghost f: Front)
      requires f0 == Front(f0.order, curr, 0, line) && Traversal(clean, patterns, nodes, trie, f0)
      requires curr != 0 && curr < |nodes| && failState == nodes[curr].fail
      modifies this`nodes
      ensures f == Front(f0.order, curr, 256, queue) && Traversal(clean, patterns, nodes, trie, f)
      ensures |nodes| == old(|nodes|)
    {
      hide Traversal;
      queue, f := line, f0;
      for b := 0 to 256
        invariant f == Front(f0.order, curr, b, queue) && curr < |nodes| && failState == nodes[curr].fail
        invariant Traversal(clean, patterns, nodes, trie, f) && |nodes| == old(|nodes|)
      {
        EntryInHand(clean, patterns, nodes, trie, f, b);
        var child := nodes[curr].next[b];
        if child != 0 {
          InheritFromFail(clean, patterns, nodes, trie, f, b);
          nodes := nodes[child := nodes[child].(fail := nodes[failState].next[b])];
          if |nodes[nodes[child].fail].output| > 0 {
            nodes := nodes[child := nodes[child].(output := nodes[child].output + nodes[nodes[child].fail].output)];
          }
          queue := queue + [child];
        } else {
          RedirectToFail(clean, patterns, nodes, trie, f, b);
          nodes := nodes[curr := nodes[curr].(next := nodes[curr].next[b := nodes[failState].next[b]])];
        }
        f := Front(f0.order, curr, b + 1, queue);
      }
    }

    /** Scans the text once, returning the pattern to report. */
    method Search(text: Word) returns (pattern: Word, found: bool)
      requires Valid()
      ensures found <==> ContainsPattern(clean, patterns, Lower(text))
      ensures found ==> IsFirstMatch(clean, patterns, Lower(text), pattern)
      ensures !found ==> pattern == []
      ensures forall low :: IsFolded(text, low) ==>
                (found <==> ContainsPattern(clean, patterns, low))
                && (found ==> IsFirstMatch(clean, patterns, low, pattern))
      ensures NoCapitals(text) ==>
                (found <==> ContainsPattern(clean, patterns, text))
                && (found ==> IsFirstMatch(clean, patterns, text, pattern))
    {
      hide NoCapitals, IsFolded;
      var curr: nat := 0;
      ghost var low := Lower(text);
      ScanStart(clean, patterns, nodes, trie, low);
      hide IsAutomaton, HasPatterns, Scanning, ContainsPattern, IsFirstMatch;
      for i := 0 to |text|
        invariant Scanning(clean, patterns, nodes, trie, low, i, curr)
      {
        ScanByte(clean, patterns, nodes, trie, low, i, curr);
        var b := text[i];
        if 65 <= b <= 90 {
          b := b + 32;
        }
        curr := nodes[curr].next[b];
        if |nodes[curr].output| > 0 {
          AnswerForFolded(clean, patterns, text, true, nodes[curr].output[0]);
          return nodes[curr].output[0], true;
        }
      }
      ScanEnd(clean, patterns, nodes, trie, low, curr);
      AnswerForFolded(clean, patterns, text, false, []);
      return [], false;
    }

    /** Follows the edge on `b`, growing the table by a blank node when there is none. */
    method Follow(ghost part: Word, curr: nat, b: byte) returns (next: nat)
      requires Inserting(clean, patterns, part, nodes, trie, curr)
      modifies this`nodes, this`trie
      ensures Inserting(clean, patterns, part + [b], nodes, trie, next)
      ensures |nodes| <= old(|nodes|) + 1
    {
      InsertByte(clean, patterns, part, nodes, trie, curr, b);
      next := nodes[curr].next[b];
      if next == 0 {
        next := |nodes|;
        nodes := nodes + [BLANK];
        nodes := nodes[curr := nodes[curr].(next := nodes[curr].next[b := next])];
        trie := Trie(trie.words + [part + [b]], trie.index[part + [b] := next]);
      }
    }

    /** Lists the pattern at the node where its spelling ends. */
    method List(pattern: Word, curr: nat)
      requires Inserting(clean, patterns, clean(pattern), nodes, trie, curr) && clean(pattern) != []
      modifies this`nodes, this`patterns
      ensures patterns == old(patterns) + [pattern] && |nodes| == old(|nodes|)
      ensures IsTrie(clean, patterns, nodes, trie) && WordsAre(clean, patterns, [], trie)
    {
      InsertEnd(clean, patterns, pattern, nodes, trie, curr);
      nodes := nodes[curr := nodes[curr].(output := nodes[curr].output + [pattern])];
      patterns := patterns + [pattern];
    }

    /** One round of the trie-building loop. */
    method Insert(pattern: Word, cleaned: Word)
      requires IsTrie(clean, patterns, nodes, trie) && WordsAre(clean, patterns, [], trie)
      requires cleaned == clean(pattern)
      modifies this
      ensures clean == old(clean) && patterns == old(patterns) + [pattern]
      ensures IsTrie(clean, patterns, nodes, trie) && WordsAre(clean, patterns, [], trie)
      ensures |nodes| <= old(|nodes|) + |cleaned|
    {
      hide IsTrie, WordsAre;
      InsertStart(clean, patterns, nodes, trie);
      if cleaned == [] {
        InsertEnd(clean, patterns, pattern, nodes, trie, 0);
        patterns := patterns + [pattern];
        return;
      }
      var curr: nat := 0;
      ghost var part: Word := [];
      for i := 0 to |cleaned|
        invariant clean == old(clean) && patterns == old(patterns)
        invariant part == cleaned[..i] && Inserting(clean, patterns, part, nodes, trie, curr)
        invariant |nodes| <= old(|nodes|) + i
      {
        curr := Follow(part, curr, cleaned[i]);
        part := part + [cleaned[i]];
      }
      assert part == cleaned;
      List(pattern, curr);
    }
  }
}
