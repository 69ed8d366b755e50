/**
 Parsing undoes printing: a printer for documents of nested maps and lists, and the proof that the parser of
 internal/config/yaml.go reads every printed document back.
 */
module YamlRoundTrip {
  import opened Decimal
  import opened YamlText
  import opened YamlParser

  // ---------------------------------------------------------------------------------------------
  // Documents
  // ---------------------------------------------------------------------------------------------

  /** What stands after a key or a dash: nothing, a scalar on the same line, or a block `1 + extra` deeper. */
  datatype Node = Nothing | Leaf(text: string) | Nested(extra: nat, doc: Doc)

  datatype Entry = Entry(key: string, node: Node)

  /** `- node`, or `- key: ...` with further keys below. */
  datatype Item = Single(node: Node) | Compact(entries: seq<Entry>)

  datatype Doc = MapDoc(entries: seq<Entry>) | ListDoc(items: seq<Item>)

  /** Key text: without colon or line feed, not read as a list item, its quotes closed. */
  ghost predicate GoodKey(k: string) {
    Tight(k) && ':' !in k && '\n' !in k && !IsItem(k) && ScanFrom(Outside, k) == At(Outside)
  }

  /** Scalar text: not blank, on one line, without a comment. */
  ghost predicate GoodText(t: string) {
    t != "" && Tight(t) && '\n' !in t && ScanFrom(Outside, t).At?
  }

  ghost predicate GoodNode(n: Node)
    decreases n
  {
    match n
    case Nothing => true
    case Leaf(t) => GoodText(t)
    case Nested(_, d) => GoodDoc(d)
  }

  ghost predicate GoodEntries(es: seq<Entry>)
    decreases es
  {
    es == [] || (GoodKey(es[0].key) && GoodNode(es[0].node) && GoodEntries(es[1..]))
  }

  ghost predicate GoodItem(it: Item)
    decreases it
  {
    match it
    case Single(n) => GoodNode(n) && (n.Leaf? ==> ':' !in n.text)
    case Compact(es) => es != [] && GoodEntries(es)
  }

  ghost predicate GoodItems(its: seq<Item>)
    decreases its
  {
    its == [] || (GoodItem(its[0]) && GoodItems(its[1..]))
  }

  /** Maps and lists are not empty. */
  ghost predicate GoodDoc(d: Doc)
    decreases d
  {
    match d
    case MapDoc(es) => es != [] && GoodEntries(es)
    case ListDoc(its) => its != [] && GoodItems(its)
  }

  // ---------------------------------------------------------------------------------------------
  // Printing, and what a document means
  // ---------------------------------------------------------------------------------------------

  /** The line of an entry, without indentation. */
  function Head(e: Entry): string {
    e.key + ":" + if e.node.Leaf? then " " + e.node.text else ""
  }

  function PrintNode(n: Node, indent: nat): seq<Line>
    decreases n
  {
    if n.Nested? then PrintDoc(n.doc, indent + 1 + n.extra) else []
  }

  function PrintEntries(es: seq<Entry>, indent: nat): seq<Line>
    decreases es
  {
    if es == [] then []
    else [Line(indent, Head(es[0]))] + (PrintNode(es[0].node, indent) + PrintEntries(es[1..], indent))
  }

  /** The lines of an item; the further keys of a compact item stand two deeper than its dash. */
  function PrintItem(it: Item, indent: nat): seq<Line>
    decreases it
  {
    match it
    case Single(n) => [Line(indent, if n.Leaf? then "- " + n.text else "-")] + PrintNode(n, indent)
    case Compact(es) =>
      if es == [] then []
      else
        [Line(indent, "- " + Head(es[0]))] + (PrintNode(es[0].node, indent + 2) + PrintEntries(es[1..], indent + 2))
  }

  function PrintItems(its: seq<Item>, indent: nat): seq<Line>
    decreases its
  {
    if its == [] then [] else PrintItem(its[0], indent) + PrintItems(its[1..], indent)
  }

  function PrintDoc(d: Doc, indent: nat): seq<Line>
    decreases d
  {
    match d
    case MapDoc(es) => PrintEntries(es, indent)
    case ListDoc(its) => PrintItems(its, indent)
  }

  function Meaning(n: Node): Value
    decreases n
  {
    match n
    case Nothing => Null
    case Leaf(t) => ParseScalar(t)
    case Nested(_, d) => MeaningOfDoc(d)
  }

  /** Entries are added in order; a repeated key takes its last value. */
  function AddEntries(m: map<string, Value>, es: seq<Entry>): map<string, Value>
    decreases es
  {
    if es == [] then m else AddEntries(m[Unquote(es[0].key) := Meaning(es[0].node)], es[1..])
  }

  function MeaningOfItem(it: Item): Value
    decreases it
  {
    match it
    case Single(n) => Meaning(n)
    case Compact(es) => Map(AddEntries(map[], es))
  }

  function MeaningOfItems(its: seq<Item>): seq<Value>
    decreases its
  {
    if its == [] then [] else [MeaningOfItem(its[0])] + MeaningOfItems(its[1..])
  }

  function MeaningOfDoc(d: Doc): Value
    decreases d
  {
    match d
    case MapDoc(es) => Map(AddEntries(map[], es))
    case ListDoc(its) => List(MeaningOfItems(its))
  }

  // ---------------------------------------------------------------------------------------------
  // One line
  // ---------------------------------------------------------------------------------------------

  lemma {:induction false} IndexOfFirst(a: string, c: char, b: string)
    requires c !in a
    ensures IndexOf(a + [c] + b, c) == |a|
  {
    if a != "" {
      var s := a + [c] + b;
      assert s[0] == a[0] && s[1..] == a[1..] + [c] + b;
      IndexOfFirst(a[1..], c, b);
    }
  }

  lemma TrimOneSpace(s: string)
    requires Tight(s)
    ensures Trim(" " + s) == s && Trim(s) == s
  {
    assert Spaces(1) == " ";
    TrimSpaces(1, s);
    TrimTight(s);
  }

  /** Taking the line of an entry apart gives its key and its text. */
  lemma HeadIsReadBack(e: Entry)
    requires GoodKey(e.key) && GoodNode(e.node)
    ensures !IsItem(Head(e)) && HasColon(Head(e)) && KeyOf(Head(e)) == Unquote(e.key)
    ensures RestOf(Head(e)) == if e.node.Leaf? then e.node.text else ""
  {
    hide Trim, Unquote, IndexOf, ScanFrom;
    var tail := if e.node.Leaf? then " " + e.node.text else "";
    var h := Head(e);
    assert h == e.key + [':'] + tail;
    IndexOfFirst(e.key, ':', tail);
    assert h[..|e.key|] == e.key && h[|e.key| + 1..] == tail && h[|e.key|] == ':';
    TrimOneSpace(e.key);
    TrimOneSpace("");
    if e.node.Leaf? {
      TrimOneSpace(e.node.text);
    }
  }

  /** Taking the line of a compact item apart. */
  lemma CompactIsReadBack(e: Entry)
    requires GoodKey(e.key) && GoodNode(e.node)
    ensures IsItem("- " + Head(e)) && ItemText("- " + Head(e)) == Head(e) && Head(e) != ""
  {
    hide Trim, ScanFrom;
    var h := Head(e);
    assert ("- " + h)[1..] == " " + h;
    assert h[0] == if e.key == "" then ':' else e.key[0];
    assert h[|h| - 1] == if e.node.Leaf? then e.node.text[|e.node.text| - 1] else ':';
    assert Tight(h);
    TrimOneSpace(h);
  }

  /** Taking the line of a single item apart. */
  lemma SingleIsReadBack(t: string)
    requires Tight(t)
    ensures IsItem("- " + t) && ItemText("- " + t) == t && IsItem("-") && ItemText("-") == ""
  {
    hide Trim;
    assert ("- " + t)[1..] == " " + t;
    TrimOneSpace(t);
    TrimOneSpace("");
    assert "-"[1..] == "";
  }

  // ---------------------------------------------------------------------------------------------
  // Blocks
  // ---------------------------------------------------------------------------------------------

  /** The block stands in `lines` from `idx` on. */
  ghost predicate Stands(lines: seq<Line>, idx: nat, block: seq<Line>) {
    idx + |block| <= |lines| && lines[idx..idx + |block|] == block
  }

  /** From `idx` on there is nothing, or something shallower than `limit`. */
  ghost predicate Below(lines: seq<Line>, idx: nat, limit: nat) {
    idx == |lines| || (idx < |lines| && lines[idx].indent < limit)
  }

  lemma StandsConcat(lines: seq<Line>, idx: nat, a: seq<Line>, b: seq<Line>)
    requires Stands(lines, idx, a + b)
    ensures Stands(lines, idx, a) && Stands(lines, idx + |a|, b)
  {
    var both := lines[idx..idx + |a + b|];
    assert both[..|a|] == a && both[|a|..] == b;
    assert lines[idx..idx + |a|] == both[..|a|];
    assert lines[idx + |a|..idx + |a| + |b|] == both[|a|..];
  }

  lemma StandsCons(lines: seq<Line>, idx: nat, l: Line, b: seq<Line>)
    requires Stands(lines, idx, [l] + b)
    ensures idx < |lines| && lines[idx] == l && Stands(lines, idx + 1, b)
  {
    StandsConcat(lines, idx, [l], b);
    assert lines[idx..idx + 1][0] == l;
  }

  lemma FirstOfEntries(es: seq<Entry>, indent: nat)
    requires es != []
    ensures PrintEntries(es, indent) != [] && PrintEntries(es, indent)[0] == Line(indent, Head(es[0]))
  {
  }

  lemma FirstOfItems(its: seq<Item>, indent: nat)
    requires its != [] && GoodItems(its)
    ensures PrintItems(its, indent) != [] && PrintItems(its, indent)[0].indent == indent
    ensures IsItem(PrintItems(its, indent)[0].content)
  {
  }

  lemma FirstOfDoc(d: Doc, indent: nat)
    requires GoodDoc(d)
    ensures PrintDoc(d, indent) != [] && PrintDoc(d, indent)[0].indent == indent
    ensures IsItem(PrintDoc(d, indent)[0].content) <==> d.ListDoc?
  {
    match d
    case MapDoc(es) =>
      FirstOfEntries(es, indent);
      HeadIsReadBack(es[0]);
    case ListDoc(its) => FirstOfItems(its, indent);
  }

  /** Siblings of the same depth, then something shallower: in any case nothing deeper follows at once. */
  lemma NextEntryIsBelow(lines: seq<Line>, idx: nat, es: seq<Entry>, indent: nat, limit: nat)
    requires Stands(lines, idx, PrintEntries(es, indent)) && Below(lines, idx + |PrintEntries(es, indent)|, limit)
    requires limit <= indent + 1
    ensures Below(lines, idx, indent + 1)
  {
    if es != [] {
      FirstOfEntries(es, indent);
      hide PrintEntries;
      assert lines[idx..idx + |PrintEntries(es, indent)|][0] == lines[idx];
    }
  }

  lemma NextItemIsBelow(lines: seq<Line>, idx: nat, its: seq<Item>, indent: nat)
    requires GoodItems(its)
    requires Stands(lines, idx, PrintItems(its, indent)) && Below(lines, idx + |PrintItems(its, indent)|, indent)
    ensures Below(lines, idx, indent + 1)
  {
    if its != [] {
      FirstOfItems(its, indent);
      hide PrintItems;
      assert lines[idx..idx + |PrintItems(its, indent)|][0] == lines[idx];
    }
  }

  /** What stands under a key or a dash is read back, and reading resumes right after it. */
  lemma {:induction false} NodeIsReadBack(lines: seq<Line>, idx: nat, n: Node, indent: nat)
    requires GoodNode(n) && !n.Leaf?
    requires Stands(lines, idx, PrintNode(n, indent)) && Below(lines, idx + |PrintNode(n, indent)|, indent + 1)
    ensures SubBlock(lines, idx, indent) == Parsed(Meaning(n), idx + |PrintNode(n, indent)|)
    decreases n, 0
  {
    hide PrintDoc, GoodDoc, MeaningOfDoc, Block;
    if n.Nested? {
      var deeper := indent + 1 + n.extra;
      FirstOfDoc(n.doc, deeper);
      assert lines[idx..idx + |PrintDoc(n.doc, deeper)|][0] == lines[idx];
      DocIsReadBack(lines, idx, n.doc, deeper);
    }
  }

  lemma {:induction false} DocIsReadBack(lines: seq<Line>, idx: nat, d: Doc, indent: nat)
    requires GoodDoc(d)
    requires Stands(lines, idx, PrintDoc(d, indent)) && Below(lines, idx + |PrintDoc(d, indent)|, indent)
    ensures Block(lines, idx, indent) == Parsed(MeaningOfDoc(d), idx + |PrintDoc(d, indent)|)
    decreases d, 0
  {
    hide PrintEntries, PrintItems, GoodEntries, GoodItems, MapFrom, ListFrom, AddEntries, MeaningOfItems;
    FirstOfDoc(d, indent);
    assert lines[idx..idx + |PrintDoc(d, indent)|][0] == lines[idx];
    match d
    case MapDoc(es) => EntriesAreReadBack(lines, idx, es, indent, map[]);
    case ListDoc(its) =>
      ItemsAreReadBack(lines, idx, its, indent, []);
      assert [] + MeaningOfItems(its) == MeaningOfItems(its);
  }

  lemma {:induction false} EntriesAreReadBack(lines: seq<Line>, idx: nat, es: seq<Entry>, indent: nat,
                                              m: map<string, Value>)
    requires GoodEntries(es)
    requires Stands(lines, idx, PrintEntries(es, indent)) && Below(lines, idx + |PrintEntries(es, indent)|, indent)
    ensures MapFrom(lines, idx, indent, m) == Parsed(Map(AddEntries(m, es)), idx + |PrintEntries(es, indent)|)
    decreases es, 0
  {
    hide Stands, Head, KeyOf, RestOf, PrintNode, GoodNode, Meaning, SubBlock, ParseScalar, GoodKey;
    if es != [] {
      var e, rest := es[0], es[1..];
      var under := PrintNode(e.node, indent);
      StandsCons(lines, idx, Line(indent, Head(e)), under + PrintEntries(rest, indent));
      StandsConcat(lines, idx + 1, under, PrintEntries(rest, indent));
      HeadIsReadBack(e);
      var j := idx + 1 + |under|;
      NextEntryIsBelow(lines, j, rest, indent, indent);
      if e.node.Leaf? {
        LeafHasNoBlock(e.node, indent);
      } else {
        NodeIsReadBack(lines, idx + 1, e.node, indent);
      }
      EntriesAreReadBack(lines, j, rest, indent, m[Unquote(e.key) := Meaning(e.node)]);
    }
  }

  lemma LeafHasNoBlock(n: Node, indent: nat)
    requires n.Leaf? && GoodNode(n)
    ensures PrintNode(n, indent) == [] && Meaning(n) == ParseScalar(n.text) && n.text != ""
  {
  }

  /** The further keys of a compact item. */
  lemma {:induction false} MoreKeysAreReadBack(lines: seq<Line>, idx: nat, es: seq<Entry>, indent: nat,
                                               m: map<string, Value>)
    requires GoodEntries(es)
    requires Stands(lines, idx, PrintEntries(es, indent + 2))
             && Below(lines, idx + |PrintEntries(es, indent + 2)|, indent + 1)
    ensures MoreKeys(lines, idx, indent, m) == Parsed(Map(AddEntries(m, es)), idx + |PrintEntries(es, indent + 2)|)
    decreases es, 0
  {
    hide Stands, Head, KeyOf, RestOf, PrintNode, GoodNode, Meaning, SubBlock, ParseScalar, GoodKey;
    if es != [] {
      var e, rest := es[0], es[1..];
      var under := PrintNode(e.node, indent + 2);
      StandsCons(lines, idx, Line(indent + 2, Head(e)), under + PrintEntries(rest, indent + 2));
      StandsConcat(lines, idx + 1, under, PrintEntries(rest, indent + 2));
      HeadIsReadBack(e);
      var j := idx + 1 + |under|;
      NextEntryIsBelow(lines, j, rest, indent + 2, indent + 1);
      if e.node.Leaf? {
        LeafHasNoBlock(e.node, indent + 2);
      } else {
        NodeIsReadBack(lines, idx + 1, e.node, indent + 2);
      }
      MoreKeysAreReadBack(lines, j, rest, indent, m[Unquote(e.key) := Meaning(e.node)]);
    }
  }

  lemma {:induction false} CompactItemIsReadBack(lines: seq<Line>, idx: nat, es: seq<Entry>, indent: nat)
    requires es != [] && GoodEntries(es)
    requires Stands(lines, idx, PrintItem(Compact(es), indent))
             && Below(lines, idx + |PrintItem(Compact(es), indent)|, indent + 1)
    ensures idx < |lines| && lines[idx] == Line(indent, "- " + Head(es[0]))
    ensures ItemMap(lines, idx, indent, Head(es[0]))
              == Parsed(Map(AddEntries(map[], es)), idx + |PrintItem(Compact(es), indent)|)
    decreases es, 1
  {
    hide Stands, Head, KeyOf, RestOf, PrintNode, PrintEntries, GoodNode, Meaning, SubBlock, ParseScalar, GoodKey,
         MoreKeys;
    var e, rest := es[0], es[1..];
    var under := PrintNode(e.node, indent + 2);
    StandsCons(lines, idx, Line(indent, "- " + Head(e)), under + PrintEntries(rest, indent + 2));
    StandsConcat(lines, idx + 1, under, PrintEntries(rest, indent + 2));
    HeadIsReadBack(e);
    var j := idx + 1 + |under|;
    NextEntryIsBelow(lines, j, rest, indent + 2, indent + 1);
    if e.node.Leaf? {
      LeafHasNoBlock(e.node, indent + 2);
    } else {
      NodeIsReadBack(lines, idx + 1, e.node, indent + 2);
    }
    var m: map<string, Value> := map[];
    MoreKeysAreReadBack(lines, j, rest, indent, m[Unquote(e.key) := Meaning(e.node)]);
  }

  lemma {:induction false} ItemsAreReadBack(lines: seq<Line>, idx: nat, its: seq<Item>, indent: nat, vs: seq<Value>)
    requires GoodItems(its)
    requires Stands(lines, idx, PrintItems(its, indent)) && Below(lines, idx + |PrintItems(its, indent)|, indent)
    ensures ListFrom(lines, idx, indent, vs) == Parsed(List(vs + MeaningOfItems(its)), idx + |PrintItems(its, indent)|)
    decreases its, 0
  {
    hide Stands, ItemMap, SubBlock, ItemText, ParseScalar, PrintItem, MeaningOfItem, GoodItem;
    if its == [] {
      assert vs + [] == vs;
    } else {
      var it, rest := its[0], its[1..];
      StandsConcat(lines, idx, PrintItem(it, indent), PrintItems(rest, indent));
      var j := idx + |PrintItem(it, indent)|;
      NextItemIsBelow(lines, j, rest, indent);
      ItemIsReadBack(lines, idx, it, indent, vs);
      ItemsAreReadBack(lines, j, rest, indent, vs + [MeaningOfItem(it)]);
      assert vs + [MeaningOfItem(it)] + MeaningOfItems(rest) == vs + MeaningOfItems(its);
    }
  }

  /** One turn of the list loop. */
  lemma {:induction false} ItemIsReadBack(lines: seq<Line>, idx: nat, it: Item, indent: nat, vs: seq<Value>)
    requires GoodItem(it)
    requires Stands(lines, idx, PrintItem(it, indent)) && Below(lines, idx + |PrintItem(it, indent)|, indent + 1)
    ensures idx + |PrintItem(it, indent)| <= |lines|
    ensures ListFrom(lines, idx, indent, vs)
         == ListFrom(lines, idx + |PrintItem(it, indent)|, indent, vs + [MeaningOfItem(it)])
    decreases it, 0
  {
    hide ItemMap, SubBlock, ItemText, ParseScalar, PrintNode, PrintEntries, GoodEntries, GoodText, Trim, AddEntries,
         Head;
    match it
    case Single(n) =>
      StandsCons(lines, idx, Line(indent, if n.Leaf? then "- " + n.text else "-"), PrintNode(n, indent));
      if n.Leaf? {
        LeafHasNoBlock(n, indent);
        LeafIsTight(n.text);
        SingleIsReadBack(n.text);
      } else {
        SingleIsReadBack("");
        NodeIsReadBack(lines, idx + 1, n, indent);
      }
    case Compact(es) =>
      CompactItemIsReadBack(lines, idx, es, indent);
      FirstIsGood(es);
      CompactIsReadBack(es[0]);
      HeadIsReadBack(es[0]);
  }

  lemma LeafIsTight(t: string)
    requires GoodText(t)
    ensures Tight(t) && t != ""
  {
  }

  lemma FirstIsGood(es: seq<Entry>)
    requires es != [] && GoodEntries(es)
    ensures GoodKey(es[0].key) && GoodNode(es[0].node)
  {
  }

  // ---------------------------------------------------------------------------------------------
  // Text
  // ---------------------------------------------------------------------------------------------

  /** Indented lines as text. */
  function Render(lines: seq<Line>): string {
    if lines == [] then "" else Spaces(lines[0].indent) + lines[0].content + "\n" + Render(lines[1..])
  }

  ghost predicate GoodLines(lines: seq<Line>) {
    forall i :: 0 <= i < |lines| ==> GoodText(lines[i].content)
  }

  lemma {:induction false} ScanSpaces(n: nat)
    ensures ScanFrom(Outside, Spaces(n)) == At(Outside)
  {
    if n > 0 {
      assert Spaces(n)[0] == ' ' && Spaces(n)[1..] == Spaces(n - 1);
      ScanSpaces(n - 1);
    }
  }

  /** A rendered line is read back as its indentation and its content. */
  lemma LineIsReadBack(l: Line)
    requires GoodText(l.content)
    ensures LineOf(Spaces(l.indent) + l.content) == [l]
  {
    hide Trim, Indentation, ScanFrom, Uncommented;
    var raw := Spaces(l.indent) + l.content;
    ScanSpaces(l.indent);
    ScanConcat(Outside, Spaces(l.indent), l.content);
    UncommentedWhole(Outside, raw);
    TrimSpaces(l.indent, l.content);
    IndentationOfSpaces(l.indent, l.content);
  }

  /** The scanner takes the first rendered line off. */
  lemma FirstRenderedLine(l: Line, rest: string)
    requires GoodText(l.content)
    ensures var raw := Spaces(l.indent) + l.content;
            ScanLines(raw + "\n" + rest) == [raw] + ScanLines(rest)
  {
    var raw := Spaces(l.indent) + l.content;
    var data := raw + ['\n'] + rest;
    IndexOfFirst(raw, '\n', rest);
    assert data[..|raw|] == raw && data[|raw| + 1..] == rest;
    assert raw[|raw| - 1] == l.content[|l.content| - 1] != '\r';
  }

  lemma {:induction false} LinesAreReadBack(lines: seq<Line>)
    requires GoodLines(lines)
    ensures LinesOf(ScanLines(Render(lines))) == lines
  {
    hide LineOf, ScanLines, GoodText;
    if lines == [] {
      NoLines();
    } else {
      var l, rest := lines[0], lines[1..];
      LinesAreReadBack(rest);
      FirstRenderedLine(l, Render(rest));
      LineIsReadBack(l);
      var raw := Spaces(l.indent) + l.content;
      assert ([raw] + ScanLines(Render(rest)))[1..] == ScanLines(Render(rest));
      assert lines == [l] + rest;
    }
  }

  lemma NoLines()
    ensures ScanLines("") == []
  {
  }

  lemma HeadIsGood(e: Entry)
    requires GoodKey(e.key) && GoodNode(e.node)
    ensures GoodText(Head(e)) && GoodText("- " + Head(e))
  {
    hide Head, ScanFrom, IsSpace;
    HeadIsTight(e);
    HeadScans(e);
    DashIsGood(Head(e));
  }

  lemma HeadIsTight(e: Entry)
    requires GoodKey(e.key) && GoodNode(e.node)
    ensures Head(e) != "" && Tight(Head(e)) && '\n' !in Head(e)
  {
    var h := Head(e);
    ColonIsNoSpace();
    hide ScanFrom, IsSpace;
    assert h[0] == if e.key == "" then ':' else e.key[0];
    assert h[|h| - 1] == if e.node.Leaf? then e.node.text[|e.node.text| - 1] else ':';
  }

  lemma HeadScans(e: Entry)
    requires GoodKey(e.key) && GoodNode(e.node)
    ensures ScanFrom(Outside, Head(e)).At?
  {
    hide ScanFrom, Tight;
    TailScans(e.node);
    var tail := ":" + if e.node.Leaf? then " " + e.node.text else "";
    assert Head(e) == e.key + tail;
    ScanConcat(Outside, e.key, tail);
  }

  lemma ColonIsNoSpace()
    ensures !IsSpace(':')
  {
  }

  lemma TailScans(n: Node)
    requires GoodNode(n)
    ensures ScanFrom(Outside, ":" + if n.Leaf? then " " + n.text else "").At?
  {
    var tail := if n.Leaf? then " " + n.text else "";
    assert (":" + tail)[1..] == tail;
    if n.Leaf? {
      assert tail[1..] == n.text;
    }
  }

  lemma DashIsGood(t: string)
    requires GoodText(t)
    ensures GoodText("- " + t) && GoodText("-")
  {
    var s := "- " + t;
    assert s[1..] == " " + t && s[1..][1..] == t && "-"[1..] == "";
    assert ScanFrom(Outside, s) == ScanFrom(Outside, t);
    assert ScanFrom(Outside, "-") == At(Outside);
    hide ScanFrom;
    assert s[|s| - 1] == t[|t| - 1];
  }

  lemma {:induction false} NodePrintsGood(n: Node, indent: nat)
    requires GoodNode(n)
    ensures GoodLines(PrintNode(n, indent))
    decreases n, 0
  {
    hide GoodText, GoodDoc;
    if n.Nested? {
      DocPrintsGood(n.doc, indent + 1 + n.extra);
    }
  }

  lemma {:induction false} EntriesPrintGood(es: seq<Entry>, indent: nat)
    requires GoodEntries(es)
    ensures GoodLines(PrintEntries(es, indent))
    decreases es, 0
  {
    hide GoodText, GoodKey, GoodNode, PrintNode, Head;
    if es != [] {
      HeadIsGood(es[0]);
      NodePrintsGood(es[0].node, indent);
      EntriesPrintGood(es[1..], indent);
    }
  }

  lemma {:induction false} ItemsPrintGood(its: seq<Item>, indent: nat)
    requires GoodItems(its)
    ensures GoodLines(PrintItems(its, indent))
    decreases its, 0
  {
    hide GoodText, GoodItem, PrintItem;
    if its != [] {
      ItemPrintsGood(its[0], indent);
      ItemsPrintGood(its[1..], indent);
    }
  }

  lemma {:induction false} ItemPrintsGood(it: Item, indent: nat)
    requires GoodItem(it)
    ensures GoodLines(PrintItem(it, indent))
    decreases it, 0
  {
    hide GoodText, GoodKey, PrintNode, PrintEntries, Head;
    match it
    case Single(n) =>
      SomeTextIsGood();
      DashIsGood(if n.Leaf? then n.text else "x");
      NodePrintsGood(n, indent);
    case Compact(es) =>
      HeadIsGood(es[0]);
      NodePrintsGood(es[0].node, indent + 2);
      EntriesPrintGood(es[1..], indent + 2);
  }

  lemma SomeTextIsGood()
    ensures GoodText("x")
  {
    assert "x"[1..] == "";
  }

  lemma {:induction false} DocPrintsGood(d: Doc, indent: nat)
    requires GoodDoc(d)
    ensures GoodLines(PrintDoc(d, indent))
    decreases d, 0
  {
    match d
    case MapDoc(es) => EntriesPrintGood(es, indent);
    case ListDoc(its) => ItemsPrintGood(its, indent);
  }

  // ---------------------------------------------------------------------------------------------
  // The round trip
  // ---------------------------------------------------------------------------------------------

  /**
   Parsing undoes printing: the text of every good document, at any indentation, is read back as its meaning,
   and nothing of it is left over.
   */
  lemma ParsingUndoesPrinting(d: Doc, indent: nat)
    requires GoodDoc(d)
    ensures Document(Render(PrintDoc(d, indent))) == Parsed(MeaningOfDoc(d), |PrintDoc(d, indent)|)
  {
    hide GoodDoc, PrintDoc, MeaningOfDoc, Block, LinesOf, ScanLines, Render;
    var lines := PrintDoc(d, indent);
    DocPrintsGood(d, indent);
    LinesAreReadBack(lines);
    FirstOfDoc(d, indent);
    assert lines[0..0 + |lines|] == lines;
    DocIsReadBack(lines, 0, d, indent);
  }

  ghost predicate DistinctKeys(es: seq<Entry>) {
    forall i, j :: 0 <= i < j < |es| ==> Unquote(es[i].key) != Unquote(es[j].key)
  }

  /** With distinct keys a map means exactly its entries: nothing is lost, added or overwritten. */
  lemma {:induction false} MapMeansItsEntries(m: map<string, Value>, es: seq<Entry>)
    requires DistinctKeys(es) && forall i :: 0 <= i < |es| ==> Unquote(es[i].key) !in m
    ensures var r := AddEntries(m, es);
            && (forall i :: 0 <= i < |es| ==> Unquote(es[i].key) in r && r[Unquote(es[i].key)] == Meaning(es[i].node))
            && (forall k :: k in m ==> k in r && r[k] == m[k])
            && |r| == |m| + |es|
    decreases es
  {
    hide Unquote, Meaning;
    if es != [] {
      var rest := es[1..];
      var m' := m[Unquote(es[0].key) := Meaning(es[0].node)];
      forall i | 0 <= i < |rest| ensures Unquote(rest[i].key) !in m' {
        assert rest[i] == es[i + 1];
      }
      assert DistinctKeys(rest);
      MapMeansItsEntries(m', rest);
      var r := AddEntries(m', rest);
      forall i | 0 <= i < |es| ensures Unquote(es[i].key) in r && r[Unquote(es[i].key)] == Meaning(es[i].node) {
        if i > 0 {
          assert es[i] == rest[i - 1];
        }
      }
    }
  }

  // ---------------------------------------------------------------------------------------------
  // Integers, nulls and quoted strings as scalars and keys
  // ---------------------------------------------------------------------------------------------

  lemma {:induction false} ScanUnquoted(q: Quoting, s: string)
    requires forall i :: 0 <= i < |s| ==> s[i] != '#' && s[i] != '"' && s[i] != '\''
    ensures ScanFrom(q, s) == At(q)
    decreases s
  {
    if s != "" {
      ScanUnquoted(q, s[1..]);
    }
  }

  /** Every 64-bit integer is good scalar text, in maps and in lists, and is read back. */
  lemma IntLeaf(n: int)
    requires MIN_INT64 <= n <= MAX_INT64
    ensures GoodText(PrintInt(n)) && ':' !in PrintInt(n) && Meaning(Leaf(PrintInt(n))) == Int(n)
  {
    hide PrintInt, ParseScalar;
    PrintIntChars(n);
    IntScalar(n);
    PrintedIsTight(n);
    ScanUnquoted(Outside, PrintInt(n));
  }

  lemma NullLeaf()
    ensures GoodText("null") && ':' !in "null" && Meaning(Leaf("null")) == Null
  {
    NullScalar();
    ScanUnquoted(Outside, "null");
  }

  lemma {:induction false} ScanInDouble(s: string)
    requires '"' !in s
    ensures ScanFrom(InDouble, s) == At(InDouble)
  {
    if s != "" {
      ScanInDouble(s[1..]);
    }
  }

  /** Every text without a double quote or line feed is good when quoted, as a scalar and, without colons, as a key. */
  lemma QuotedLeaf(s: string)
    requires '"' !in s && '\n' !in s
    ensures GoodText(Quote(s)) && Meaning(Leaf(Quote(s))) == Str(s)
    ensures ':' !in s ==> ':' !in Quote(s) && GoodKey(Quote(s)) && Unquote(Quote(s)) == s
  {
    var q := Quote(s);
    QuotedScalar(s);
    ScanInDouble(s);
    ScanConcat(InDouble, s, "\"");
    assert q[0] == '"' && q[1..] == s + "\"" && "\""[1..] == "";
    hide ParseScalar;
  }

  /** A leaf means what its text denotes, whatever the parser makes of it. */
  lemma LeafDenotes(t: string, v: Value)
    requires GoodText(t)
    ensures Meaning(Leaf(t)) == v <==> Denotes(t, v)
  {
    hide ParseScalar, ScanFrom;
    ScalarDenotes(t, v);
  }

  /** Any of the words, in any letter case, may stand in maps and lists. */
  lemma WordLeaf(t: string, words: seq<string>)
    requires words in {TRUE_WORDS, FALSE_WORDS, NULL_WORDS} && SpelledAs(t, words)
    ensures GoodText(t) && ':' !in t
    ensures Meaning(Leaf(t)) == if words == NULL_WORDS then Null else Bool(words == TRUE_WORDS)
  {
    WordsAreLetters(words);
    var k :| 0 <= k < |words| && Spelled(t, words[k]);
    SpelledIsGood(t, words[k]);
    assert TRUE_WORDS[0] != NULL_WORDS[0] && TRUE_WORDS[0] != FALSE_WORDS[0] && FALSE_WORDS[0] != NULL_WORDS[0];
    hide GoodText, Spelled, ParseScalar;
    LeafDenotes(t, if words == NULL_WORDS then Null else Bool(words == TRUE_WORDS));
  }

  predicate IsLetters(w: string) {
    w != "" && forall i :: 0 <= i < |w| ==> 'a' <= w[i] <= 'z' || w[i] == '~'
  }

  lemma WordsAreLetters(words: seq<string>)
    requires words in {TRUE_WORDS, FALSE_WORDS, NULL_WORDS}
    ensures forall k :: 0 <= k < |words| ==> IsLetters(words[k])
  {
    assert IsLetters("true") && IsLetters("yes") && IsLetters("on");
    assert IsLetters("false") && IsLetters("no") && IsLetters("off");
    assert IsLetters("null") && IsLetters("~");
  }

  lemma SpelledIsGood(t: string, w: string)
    requires IsLetters(w) && Spelled(t, w)
    ensures GoodText(t) && ':' !in t
  {
    forall i | 0 <= i < |t| ensures 'A' <= t[i] <= 'Z' || 'a' <= t[i] <= 'z' || t[i] == '~' {
      assert t[i] == w[i] || t[i] as int == w[i] as int - 32;
    }
    ScanUnquoted(Outside, t);
  }

  lemma {:induction false} ScanInSingle(s: string)
    requires '\'' !in s
    ensures ScanFrom(InSingle, s) == At(InSingle)
  {
    if s != "" {
      ScanInSingle(s[1..]);
    }
  }

  function SingleQuote(s: string): string {
    "'" + s + "'"
  }

  lemma SingleQuotedText(s: string)
    requires '\'' !in s && '\n' !in s
    ensures GoodText(SingleQuote(s)) && ScanFrom(Outside, SingleQuote(s)) == At(Outside)
    ensures !IsItem(SingleQuote(s))
  {
    var q := SingleQuote(s);
    ScanInSingle(s);
    ScanConcat(InSingle, s, "'");
    assert q[0] == '\'' && q[1..] == s + "'" && "'"[1..] == "" && q[|q| - 1] == '\'';
    assert ScanFrom(InSingle, "'") == At(Outside) && ScanFrom(Outside, q) == At(Outside);
  }

  /** Every text without a single quote or line feed is good between single quotes, a '#' in it included. */
  lemma SingleQuotedLeaf(s: string)
    requires '\'' !in s && '\n' !in s
    ensures GoodText(SingleQuote(s)) && Meaning(Leaf(SingleQuote(s))) == Str(s)
    ensures ':' !in s ==> ':' !in SingleQuote(s) && GoodKey(SingleQuote(s)) && Unquote(SingleQuote(s)) == s
  {
    hide ParseScalar, ScanFrom, IsItem, Unquote;
    SingleQuotedText(s);
    QuotedIsInQuotes(SingleQuote(s));
    LeafDenotes(SingleQuote(s), Str(s));
  }

  /** A key that stands in no quotes is read as it is. */
  lemma UnquotedKey(k: string)
    requires !exists s :: InQuotes(k, s)
    ensures Unquote(k) == k
  {
    QuotedIsInQuotes(k);
  }

  /** Of several entries with one key the last one counts. */
  lemma {:induction false} LastEntryCounts(m: map<string, Value>, es: seq<Entry>, e: Entry)
    ensures AddEntries(m, es + [e]) == AddEntries(m, es)[Unquote(e.key) := Meaning(e.node)]
    decreases es
  {
    hide Unquote, Meaning;
    if es == [] {
      assert (es + [e])[0] == e && (es + [e])[1..] == [];
    } else {
      assert (es + [e])[0] == es[0] && (es + [e])[1..] == es[1..] + [e];
      LastEntryCounts(m[Unquote(es[0].key) := Meaning(es[0].node)], es[1..], e);
    }
  }

  // ---------------------------------------------------------------------------------------------
  // Trees
  // ---------------------------------------------------------------------------------------------

  /** A text that quotes of one kind or the other can hold. */
  predicate IsQuotable(s: string) {
    '\n' !in s && ('"' !in s || '\'' !in s)
  }

  function QuoteEither(s: string): string {
    if '"' !in s then Quote(s) else SingleQuote(s)
  }

  lemma EitherQuotedLeaf(s: string)
    requires IsQuotable(s)
    ensures GoodText(QuoteEither(s)) && Meaning(Leaf(QuoteEither(s))) == Str(s)
    ensures ':' !in s ==> ':' !in QuoteEither(s) && GoodKey(QuoteEither(s)) && Unquote(QuoteEither(s)) == s
  {
    hide GoodText, GoodKey, ParseScalar;
    if '"' !in s {
      QuotedLeaf(s);
    } else {
      SingleQuotedLeaf(s);
    }
  }

  /** A value that cannot stand in a list. */
  predicate HoldsColon(v: Value) {
    (v.Str? && ':' in v.s) || (v.Plain? && ':' in v.text)
  }

  /**
   Nulls, booleans, 64-bit integers, texts that can be quoted, plain texts, and non-empty maps and lists of these.
   */
  ghost predicate IsTree(v: Value)
    decreases v
  {
    match v
    case Null => true
    case Bool(_) => true
    case Int(n) => MIN_INT64 <= n <= MAX_INT64
    case Str(s) => IsQuotable(s)
    case Plain(t) => GoodText(t) && IsPlain(t)
    case Map(m) => m != map[] && forall k :: k in m ==> IsQuotable(k) && ':' !in k && IsTree(m[k])
    case List(items) =>
      items != [] && forall i :: 0 <= i < |items| ==> IsTree(items[i]) && !HoldsColon(items[i])
  }

  /** A node that means the tree, and may stand in a list unless the tree is a text with a colon. */
  lemma {:induction false} NodeOf(v: Value) returns (n: Node)
    requires IsTree(v)
    ensures GoodNode(n) && Meaning(n) == v && (n.Leaf? && ':' in n.text ==> HoldsColon(v))
    decreases v, 1
  {
    hide GoodText, ParseScalar, GoodDoc, MeaningOfDoc, PrintInt, Quote, IsTree;
    if v.Map? || v.List? {
      var d := DocOf(v);
      n := Nested(0, d);
    } else {
      n := LeafOf(v);
    }
  }

  lemma WordsSpellThemselves()
    ensures SpelledAs("true", TRUE_WORDS) && SpelledAs("false", FALSE_WORDS) && TRUE_WORDS != FALSE_WORDS
    ensures TRUE_WORDS != NULL_WORDS && FALSE_WORDS != NULL_WORDS
  {
    assert Spelled("true", TRUE_WORDS[0]) && Spelled("false", FALSE_WORDS[0]);
    assert TRUE_WORDS[0] != FALSE_WORDS[0] && |NULL_WORDS| == 2;
  }

  lemma LeafOf(v: Value) returns (n: Node)
    requires IsTree(v) && !v.Map? && !v.List?
    ensures GoodNode(n) && Meaning(n) == v && (n.Leaf? && ':' in n.text ==> HoldsColon(v))
  {
    hide GoodText, ParseScalar, PrintInt, Quote, QuoteEither, GoodKey, SpelledAs, IsPlain;
    match v
    case Null =>
      NullLeaf();
      n := Leaf("null");
    case Int(i) =>
      IntLeaf(i);
      n := Leaf(PrintInt(i));
    case Bool(b) =>
      WordsSpellThemselves();
      WordLeaf(if b then "true" else "false", if b then TRUE_WORDS else FALSE_WORDS);
      n := Leaf(if b then "true" else "false");
    case Str(s) =>
      EitherQuotedLeaf(s);
      n := Leaf(QuoteEither(s));
    case Plain(t) =>
      LeafDenotes(t, v);
      n := Leaf(t);
  }

  lemma {:induction false} DocOf(v: Value) returns (d: Doc)
    requires IsTree(v) && (v.Map? || v.List?)
    ensures GoodDoc(d) && MeaningOfDoc(d) == v
    decreases v, 0, 1
  {
    match v
    case Map(m) =>
      var es := EntriesOf(v, m.Keys);
      assert map[] + (map k | k in m.Keys :: m[k]) == m;
      assert AddEntries(map[], []) == map[];
      d := MapDoc(es);
    case List(items) =>
      var its := ItemsOf(v, |items|);
      assert items[..|items|] == items;
      assert MeaningOfItems([]) == [];
      d := ListDoc(its);
  }

  /** Entries for some keys of a map, in an arbitrary order. */
  lemma {:induction false} EntriesOf(v: Value, keys: set<string>) returns (es: seq<Entry>)
    requires IsTree(v) && v.Map? && keys <= v.m.Keys
    ensures GoodEntries(es)
    ensures forall acc :: AddEntries(acc, es) == acc + (map k | k in keys :: v.m[k])
    decreases v, 0, 0, keys
  {
    hide GoodKey, GoodNode, Meaning, Unquote, QuoteEither;
    var part := map k | k in keys :: v.m[k];
    assert part.Keys == keys;
    if keys == {} {
      es := [];
      assert forall acc: map<string, Value> :: acc + part == acc;
    } else {
      var k :| k in keys;
      var n := NodeOf(v.m[k]);
      var rest := EntriesOf(v, keys - {k});
      EitherQuotedLeaf(k);
      es := [Entry(QuoteEither(k), n)] + rest;
      assert es[1..] == rest;
      forall acc ensures AddEntries(acc, es) == acc + (map k | k in keys :: v.m[k]) {
        assert AddEntries(acc, es) == AddEntries(acc[k := v.m[k]], rest);
        OneMoreKey(acc, v.m, keys, k);
      }
    }
  }

  lemma OneMoreKey(acc: map<string, Value>, m: map<string, Value>, keys: set<string>, k: string)
    requires k in keys && keys <= m.Keys
    ensures acc[k := m[k]] + (map x | x in keys - {k} :: m[x]) == acc + (map x | x in keys :: m[x])
  {
    assert keys - {k} + {k} == keys;
  }

  /** Items for the first values of a list. */
  lemma {:induction false} ItemsOf(v: Value, n: nat) returns (its: seq<Item>)
    requires IsTree(v) && v.List? && n <= |v.items|
    ensures GoodItems(its) && MeaningOfItems(its) == v.items[..n]
    decreases v, 0, 0, n
  {
    hide GoodNode, Meaning;
    its := [];
    if n > 0 {
      var front := ItemsOf(v, n - 1);
      var node := NodeOf(v.items[n - 1]);
      its := front + [Single(node)];
      AppendItem(front, Single(node));
      assert v.items[..n] == v.items[..n - 1] + [v.items[n - 1]];
    }
  }

  lemma {:induction false} AppendItem(its: seq<Item>, it: Item)
    requires GoodItems(its) && GoodItem(it)
    ensures GoodItems(its + [it]) && MeaningOfItems(its + [it]) == MeaningOfItems(its) + [MeaningOfItem(it)]
    decreases its
  {
    hide GoodItem, MeaningOfItem;
    if its == [] {
      assert its + [it] == [it] && [it][1..] == [];
    } else {
      assert (its + [it])[0] == its[0] && (its + [it])[1..] == its[1..] + [it];
      AppendItem(its[1..], it);
    }
  }

  /**
   Every tree has a text that is read back as the tree itself, at any indentation: a document that means it can be
   printed, and every document that means it is read back as it.
   */
  lemma TreeRoundTrip(v: Value, indent: nat)
    requires IsTree(v) && (v.Map? || v.List?)
    ensures exists d :: GoodDoc(d) && MeaningOfDoc(d) == v
    ensures forall d :: GoodDoc(d) && MeaningOfDoc(d) == v ==>
              Document(Render(PrintDoc(d, indent))) == Parsed(v, |PrintDoc(d, indent)|)
  {
    hide GoodDoc, MeaningOfDoc, PrintDoc, Document, Render;
    var d := DocOf(v);
    forall d | GoodDoc(d) && MeaningOfDoc(d) == v
      ensures Document(Render(PrintDoc(d, indent))) == Parsed(v, |PrintDoc(d, indent)|)
    {
      ParsingUndoesPrinting(d, indent);
    }
  }
}
