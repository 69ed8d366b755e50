/**
 The block level of the YAML subset (internal/config/yaml.go): mutually recursive parsers over indented lines.
 The functions say what is parsed; the methods below them are the program's loops.
 */
module YamlParser {
  import opened YamlText

  /** A line that is neither blank nor a comment: its indentation and its trimmed text. */
  datatype Line = Line(indent: nat, content: string)

  datatype Problem = UnexpectedIndent | MissingColon | UnexpectedListIndent

  /** A value and where parsing stopped, or a problem and the line it is about. */
  datatype Result = Parsed(value: Value, next: nat) | Failed(problem: Problem, at: nat)

  predicate IsItem(content: string) {
    content != "" && content[0] == '-'
  }

  predicate HasColon(content: string) {
    ':' in content
  }

  /** The key before the first colon and the text after it. */
  function KeyOf(content: string): string {
    Unquote(Trim(content[..IndexOf(content, ':')]))
  }

  function RestOf(content: string): string {
    var i := IndexOf(content, ':');
    if i < |content| then Trim(content[i + 1..]) else ""
  }

  function ItemText(content: string): string {
    if content == "" then "" else Trim(content[1..])
  }

  /** Where the block of a map stops: at the end, or at a shallower line. */
  predicate MapEnds(lines: seq<Line>, i: nat, indent: nat) {
    i >= |lines| || lines[i].indent < indent
  }

  /** Where the block of a list stops: also at a line of the same depth that is no item. */
  predicate ListEnds(lines: seq<Line>, i: nat, indent: nat) {
    i >= |lines| || lines[i].indent < indent || (lines[i].indent == indent && !IsItem(lines[i].content))
  }

  /** No line from `i` to `j` is shallower than the block. */
  predicate AllDeep(lines: seq<Line>, i: nat, j: nat, indent: nat) {
    forall k :: i <= k < j && k < |lines| ==> lines[k].indent >= indent
  }

  /** A reported problem is really there, on a line of the block or deeper. */
  predicate IsReal(lines: seq<Line>, idx: nat, indent: nat, problem: Problem, at: nat) {
    && idx <= at < |lines|
    && match problem
       case MissingColon => lines[at].indent >= indent && !HasColon(lines[at].content)
       case UnexpectedIndent => lines[at].indent > indent
       case UnexpectedListIndent => lines[at].indent > indent
  }

  /**
   A successful parse stops inside the input and has eaten nothing shallower than its block; a failed one
   reports a real problem.
   */
  predicate WithinBlock(lines: seq<Line>, idx: nat, indent: nat, r: Result) {
    match r
    case Parsed(_, next) => idx <= next <= |lines| && AllDeep(lines, idx, next, indent)
    case Failed(problem, at) => IsReal(lines, idx, indent, problem, at)
  }

  // ---------------------------------------------------------------------------------------------
  // What is parsed
  // ---------------------------------------------------------------------------------------------

  /** What stands under a line: a block if the next line is deeper than `floor`, nothing otherwise. */
  function SubBlock(lines: seq<Line>, idx: nat, floor: nat): (r: Result)
    requires idx <= |lines|
    ensures WithinBlock(lines, idx, floor + 1, r)
    decreases |lines| - idx, 2
  {
    if idx < |lines| && lines[idx].indent > floor then Block(lines, idx, lines[idx].indent) else Parsed(Null, idx)
  }

  function Block(lines: seq<Line>, idx: nat, indent: nat): (r: Result)
    requires idx <= |lines|
    ensures WithinBlock(lines, idx, indent, r)
    decreases |lines| - idx, 1
  {
    if idx >= |lines| then Parsed(Null, idx)
    else if IsItem(lines[idx].content) then ListFrom(lines, idx, indent, [])
    else MapFrom(lines, idx, indent, map[])
  }

  function MapFrom(lines: seq<Line>, idx: nat, indent: nat, result: map<string, Value>): (r: Result)
    requires idx <= |lines|
    ensures WithinBlock(lines, idx, indent, r)
    ensures r.Parsed? ==> MapEnds(lines, r.next, indent)
    decreases |lines| - idx, 0
  {
    if MapEnds(lines, idx, indent) then Parsed(Map(result), idx)
    else if lines[idx].indent > indent then Failed(UnexpectedIndent, idx)
    else if !HasColon(lines[idx].content) then Failed(MissingColon, idx)
    else
      var key, rest := KeyOf(lines[idx].content), RestOf(lines[idx].content);
      if rest != "" then MapFrom(lines, idx + 1, indent, result[key := ParseScalar(rest)])
      else
        match SubBlock(lines, idx + 1, indent)
        case Parsed(v, next) => MapFrom(lines, next, indent, result[key := v])
        case Failed(p, at) => Failed(p, at)
  }

  function ListFrom(lines: seq<Line>, idx: nat, indent: nat, items: seq<Value>): (r: Result)
    requires idx <= |lines|
    ensures WithinBlock(lines, idx, indent, r)
    ensures r.Parsed? ==> ListEnds(lines, r.next, indent)
    decreases |lines| - idx, 0
  {
    if ListEnds(lines, idx, indent) then Parsed(List(items), idx)
    else if lines[idx].indent > indent then Failed(UnexpectedListIndent, idx)
    else
      var text := ItemText(lines[idx].content);
      if text == "" then
        match SubBlock(lines, idx + 1, indent)
        case Parsed(v, next) => ListFrom(lines, next, indent, items + [v])
        case Failed(p, at) => Failed(p, at)
      else if HasColon(text) then
        match ItemMap(lines, idx, indent, text)
        case Parsed(v, next) => ListFrom(lines, next, indent, items + [v])
        case Failed(p, at) => Failed(p, at)
      else ListFrom(lines, idx + 1, indent, items + [ParseScalar(text)])
  }

  /** `- key: value`, with more keys on deeper lines below. */
  function ItemMap(lines: seq<Line>, idx: nat, indent: nat, text: string): (r: Result)
    requires idx < |lines| && lines[idx].indent == indent
    ensures WithinBlock(lines, idx, indent, r) && (r.Parsed? ==> r.next > idx)
    decreases |lines| - idx - 1, 3
  {
    var key, rest := KeyOf(text), RestOf(text);
    if rest != "" then MoreKeys(lines, idx + 1, indent, map[key := ParseScalar(rest)])
    else
      match SubBlock(lines, idx + 1, indent + 2)
      case Parsed(v, next) => MoreKeys(lines, next, indent, map[key := v])
      case Failed(p, at) => Failed(p, at)
  }

  predicate KeysEnd(lines: seq<Line>, i: nat, indent: nat) {
    i >= |lines| || lines[i].indent <= indent || IsItem(lines[i].content) || !HasColon(lines[i].content)
  }

  function MoreKeys(lines: seq<Line>, idx: nat, indent: nat, result: map<string, Value>): (r: Result)
    requires idx <= |lines|
    ensures WithinBlock(lines, idx, indent, r) && (r.Parsed? ==> KeysEnd(lines, r.next, indent))
    decreases |lines| - idx, 0
  {
    if KeysEnd(lines, idx, indent) then Parsed(Map(result), idx)
    else
      var key, rest := KeyOf(lines[idx].content), RestOf(lines[idx].content);
      if rest != "" then MoreKeys(lines, idx + 1, indent, result[key := ParseScalar(rest)])
      else
        match SubBlock(lines, idx + 1, lines[idx].indent)
        case Parsed(v, next) => MoreKeys(lines, next, indent, result[key := v])
        case Failed(p, at) => Failed(p, at)
  }

  // ---------------------------------------------------------------------------------------------
  // How it is parsed
  // ---------------------------------------------------------------------------------------------

  method ParseSubBlock(lines: seq<Line>, idx: nat, floor: nat) returns (r: Result)
    requires idx <= |lines|
    ensures r == SubBlock(lines, idx, floor)
    decreases |lines| - idx, 2
  {
    if idx < |lines| && lines[idx].indent > floor {
      r := ParseBlock(lines, idx, lines[idx].indent);
    } else {
      r := Parsed(Null, idx);
    }
  }

  method ParseBlock(lines: seq<Line>, idx: nat, currentIndent: nat) returns (r: Result)
    requires idx <= |lines|
    ensures r == Block(lines, idx, currentIndent)
    decreases |lines| - idx, 1
  {
    if idx >= |lines| {
      return Parsed(Null, idx);
    }
    if IsItem(lines[idx].content) {
      r := ParseList(lines, idx, currentIndent);
    } else {
      r := ParseMap(lines, idx, currentIndent);
    }
  }

  method ParseMap(lines: seq<Line>, start: nat, currentIndent: nat) returns (r: Result)
    requires start <= |lines|
    ensures r == MapFrom(lines, start, currentIndent, map[])
    decreases |lines| - start, 0
  {
    hide Trim, Unquote, ParseScalar, IndexOf, Block, ListFrom, ItemMap, MoreKeys, AllDeep;
    var idx := start;
    var result: map<string, Value> := map[];
    while idx < |lines|
      invariant start <= idx <= |lines|
      invariant MapFrom(lines, idx, currentIndent, result) == MapFrom(lines, start, currentIndent, map[])
      decreases |lines| - idx
    {
      var line := lines[idx];
      if line.indent < currentIndent {
        break;
      }
      if line.indent > currentIndent {
        return Failed(UnexpectedIndent, idx);
      }
      var colonIdx := IndexOf(line.content, ':');
      if colonIdx == |line.content| {
        return Failed(MissingColon, idx);
      }
      var key := Unquote(Trim(line.content[..colonIdx]));
      var valStr := Trim(line.content[colonIdx + 1..]);
      idx := idx + 1;
      if valStr != "" {
        result := result[key := ParseScalar(valStr)];
      } else {
        var sub := ParseSubBlock(lines, idx, currentIndent);
        if sub.Failed? {
          return Failed(sub.problem, sub.at);
        }
        result := result[key := sub.value];
        idx := sub.next;
      }
    }
    return Parsed(Map(result), idx);
  }

  method ParseList(lines: seq<Line>, start: nat, currentIndent: nat) returns (r: Result)
    requires start <= |lines|
    ensures r == ListFrom(lines, start, currentIndent, [])
    decreases |lines| - start, 0
  {
    hide Trim, Unquote, ParseScalar, IndexOf, Block, MapFrom, ItemMap, MoreKeys, AllDeep;
    var idx := start;
    var result: seq<Value> := [];
    while idx < |lines|
      invariant start <= idx <= |lines|
      invariant ListFrom(lines, idx, currentIndent, result) == ListFrom(lines, start, currentIndent, [])
      decreases |lines| - idx
    {
      var line := lines[idx];
      if line.indent < currentIndent {
        break;
      }
      if line.indent > currentIndent {
        return Failed(UnexpectedListIndent, idx);
      }
      if !IsItem(line.content) {
        break;
      }
      var itemContent := Trim(line.content[1..]);
      if itemContent == "" {
        var sub := ParseSubBlock(lines, idx + 1, currentIndent);
        if sub.Failed? {
          return Failed(sub.problem, sub.at);
        }
        result := result + [sub.value];
        idx := sub.next;
      } else if HasColon(itemContent) {
        var sub := ParseItemMap(lines, idx, currentIndent, itemContent);
        if sub.Failed? {
          return Failed(sub.problem, sub.at);
        }
        result := result + [sub.value];
        idx := sub.next;
      } else {
        result := result + [ParseScalar(itemContent)];
        idx := idx + 1;
      }
    }
    return Parsed(List(result), idx);
  }

  /** The `- key: value` arm of the list loop, with its inner loop over the remaining keys. */
  method ParseItemMap(lines: seq<Line>, start: nat, currentIndent: nat, itemContent: string) returns (r: Result)
    requires start < |lines| && lines[start].indent == currentIndent && HasColon(itemContent)
    ensures r == ItemMap(lines, start, currentIndent, itemContent)
    decreases |lines| - start - 1, 3
  {
    hide Trim, Unquote, ParseScalar, IndexOf, Block, MapFrom, ListFrom, AllDeep;
    var colonIdx := IndexOf(itemContent, ':');
    var firstKey := Unquote(Trim(itemContent[..colonIdx]));
    var firstVal := Trim(itemContent[colonIdx + 1..]);
    var itemMap: map<string, Value>;
    var idx := start + 1;
    if firstVal != "" {
      itemMap := map[firstKey := ParseScalar(firstVal)];
    } else {
      var sub := ParseSubBlock(lines, idx, currentIndent + 2);
      if sub.Failed? {
        return Failed(sub.problem, sub.at);
      }
      itemMap := map[firstKey := sub.value];
      idx := sub.next;
    }
    while idx < |lines|
      invariant start < idx <= |lines|
      invariant MoreKeys(lines, idx, currentIndent, itemMap) == ItemMap(lines, start, currentIndent, itemContent)
      decreases |lines| - idx
    {
      var nextLine := lines[idx];
      if nextLine.indent <= currentIndent || IsItem(nextLine.content) {
        break;
      }
      var cIdx := IndexOf(nextLine.content, ':');
      if cIdx == |nextLine.content| {
        break;
      }
      var k := Unquote(Trim(nextLine.content[..cIdx]));
      var v := Trim(nextLine.content[cIdx + 1..]);
      idx := idx + 1;
      if v != "" {
        itemMap := itemMap[k := ParseScalar(v)];
      } else {
        var sub := ParseSubBlock(lines, idx, nextLine.indent);
        if sub.Failed? {
          return Failed(sub.problem, sub.at);
        }
        itemMap := itemMap[k := sub.value];
        idx := sub.next;
      }
    }
    return Parsed(Map(itemMap), idx);
  }

  // ---------------------------------------------------------------------------------------------
  // Whole documents
  // ---------------------------------------------------------------------------------------------

  /** The line of a raw text line, unless nothing is left of it without its comment. */
  function LineOf(raw: string): seq<Line> {
    var cleaned := Uncommented(Outside, raw);
    if Trim(cleaned) == "" then [] else [Line(Indentation(cleaned), Trim(cleaned))]
  }

  function LinesOf(raws: seq<string>): seq<Line> {
    if raws == [] then [] else LineOf(raws[0]) + LinesOf(raws[1..])
  }

  /** The value of a document; what follows the first block is ignored. */
  function Document(data: string): Result {
    var lines := LinesOf(ScanLines(data));
    if lines == [] then Parsed(Map(map[]), 0) else Block(lines, 0, lines[0].indent)
  }

  method ParseYAML(data: string) returns (r: Result)
    ensures r == Document(data)
  {
    hide ScanLines, Uncommented, Trim, Indentation, Block, LinesOf;
    var raws := ScanLines(data);
    LinesOfNone();
    assert raws[0..] == raws && raws[|raws|..] == [];
    var lines: seq<Line> := [];
    for k := 0 to |raws|
      invariant lines + LinesOf(raws[k..]) == LinesOf(raws)
    {
      LinesOfStep(raws, k);
      var cleaned := StripComment(raws[k]);
      if Trim(cleaned) == "" {
        continue;
      }
      var indent := CountIndent(cleaned);
      lines := lines + [Line(indent, Trim(cleaned))];
    }
    assert lines == lines + LinesOf(raws[|raws|..]) == LinesOf(raws);
    if |lines| == 0 {
      return Parsed(Map(map[]), 0);
    }
    r := ParseBlock(lines, 0, lines[0].indent);
  }

  lemma LinesOfNone()
    ensures LinesOf([]) == []
  {
  }

  lemma LinesOfStep(raws: seq<string>, k: nat)
    requires k < |raws|
    ensures LinesOf(raws[k..]) == LineOf(raws[k]) + LinesOf(raws[k + 1..])
  {
    assert raws[k..][0] == raws[k] && raws[k..][1..] == raws[k + 1..];
  }

  /** White space and a comment around a text change nothing but the indentation. */
  lemma LineIsRead(blanks: string, content: string, more: string, comment: string)
    requires AreBlanks(blanks) && AreBlanks(more)
    requires content != "" && Tight(content) && ScanFrom(Outside, content) == At(Outside)
    ensures var indent := multiset(blanks)[' '] + 2 * multiset(blanks)['\t'];
            && LineOf(blanks + content + more) == [Line(indent, content)]
            && LineOf(blanks + content + more + "#" + comment) == [Line(indent, content)]
  {
    var text := blanks + content + more;
    assert text == blanks + (content + more) && (content + more)[0] == content[0];
    IndentationOfBlanks(blanks, content + more);
    hide Uncommented, Trim, Indentation, ScanFrom, Tight, LineOf;
    ScanBlanks(Outside, blanks);
    ScanConcat(Outside, blanks, content);
    ScanBlanks(Outside, more);
    ScanConcat(Outside, blanks + content, more);
    UncommentedWhole(Outside, text);
    CommentIsDropped(Outside, text, comment);
    TrimBlanks(blanks, content, more);
    LineOfText(text, text);
    LineOfText(text + "#" + comment, text);
  }

  lemma LineOfText(raw: string, text: string)
    requires Uncommented(Outside, raw) == text && Trim(text) != ""
    ensures LineOf(raw) == [Line(Indentation(text), Trim(text))]
  {
  }

  /** A line of blanks, or of blanks and a comment, is no line. */
  lemma BlankLineIsSkipped(blanks: string, comment: string)
    requires AreBlanks(blanks)
    ensures LineOf(blanks) == [] && LineOf(blanks + "#" + comment) == []
  {
    ScanBlanks(Outside, blanks);
    UncommentedWhole(Outside, blanks);
    CommentIsDropped(Outside, blanks, comment);
    BlanksTrimToNothing(blanks);
  }

  /** A document without lines is an empty map. */
  lemma EmptyDocument(data: string)
    requires LinesOf(ScanLines(data)) == []
    ensures Document(data) == Parsed(Map(map[]), 0)
  {
  }

  // ---------------------------------------------------------------------------------------------
  // What a block must look like to be parsed
  // ---------------------------------------------------------------------------------------------

  /** Every line at the depth of a map has a colon, and nothing deeper follows one with text after its colon. */
  predicate MapShape(lines: seq<Line>, i: nat, j: nat, indent: nat) {
    forall k :: i <= k < j && k < |lines| && lines[k].indent == indent ==>
      && ':' in lines[k].content
      && (RestOf(lines[k].content) != "" && k + 1 < |lines| ==> lines[k + 1].indent <= indent)
  }

  /** Every line at the depth of a list is an item, and nothing deeper follows one that is a scalar. */
  predicate ListShape(lines: seq<Line>, i: nat, j: nat, indent: nat) {
    forall k :: i <= k < j && k < |lines| && lines[k].indent == indent ==>
      && lines[k].content != "" && lines[k].content[0] == '-'
      && (ItemText(lines[k].content) != "" && ':' !in ItemText(lines[k].content) && k + 1 < |lines| ==>
            lines[k + 1].indent <= indent)
  }

  /** A map block is parsed only if all of it has the shape of one: no line is skipped or reinterpreted. */
  lemma {:induction false} MapsAreWellFormed(lines: seq<Line>, idx: nat, indent: nat, result: map<string, Value>)
    requires idx <= |lines|
    ensures var r := MapFrom(lines, idx, indent, result);
            r.Parsed? ==> MapShape(lines, idx, r.next, indent) && (idx < r.next ==> lines[idx].indent == indent)
    decreases |lines| - idx
  {
    hide KeyOf, RestOf, ParseScalar, Block;
    if !MapEnds(lines, idx, indent) && lines[idx].indent == indent && HasColon(lines[idx].content) {
      var key, rest := KeyOf(lines[idx].content), RestOf(lines[idx].content);
      if rest != "" {
        MapsAreWellFormed(lines, idx + 1, indent, result[key := ParseScalar(rest)]);
      } else {
        var sub := SubBlock(lines, idx + 1, indent);
        if sub.Parsed? {
          MapsAreWellFormed(lines, sub.next, indent, result[key := sub.value]);
          hide MapFrom, SubBlock;
          assert forall k :: idx + 1 <= k < sub.next && k < |lines| ==> lines[k].indent >= indent + 1;
        }
      }
    }
  }

  /** The further keys of an item, and what stands under them, are deeper than its dash. */
  lemma {:induction false} KeysAreDeep(lines: seq<Line>, idx: nat, indent: nat, result: map<string, Value>)
    requires idx <= |lines|
    ensures var r := MoreKeys(lines, idx, indent, result);
            r.Parsed? ==> AllDeep(lines, idx, r.next, indent + 1)
    decreases |lines| - idx
  {
    hide KeyOf, RestOf, HasColon, ParseScalar, Block, IsItem;
    if !KeysEnd(lines, idx, indent) {
      var key, rest := KeyOf(lines[idx].content), RestOf(lines[idx].content);
      if rest != "" {
        KeysAreDeep(lines, idx + 1, indent, result[key := ParseScalar(rest)]);
      } else {
        var sub := SubBlock(lines, idx + 1, lines[idx].indent);
        if sub.Parsed? {
          KeysAreDeep(lines, sub.next, indent, result[key := sub.value]);
          hide MoreKeys, SubBlock;
          assert AllDeep(lines, idx + 1, sub.next, lines[idx].indent + 1);
        }
      }
    }
  }

  lemma ItemIsDeep(lines: seq<Line>, idx: nat, indent: nat, text: string)
    requires idx < |lines| && lines[idx].indent == indent
    ensures var r := ItemMap(lines, idx, indent, text);
            r.Parsed? ==> idx < r.next <= |lines| && AllDeep(lines, idx + 1, r.next, indent + 1)
  {
    hide KeyOf, RestOf, ParseScalar, Block, MoreKeys;
    var key, rest := KeyOf(text), RestOf(text);
    if rest != "" {
      KeysAreDeep(lines, idx + 1, indent, map[key := ParseScalar(rest)]);
    } else {
      var sub := SubBlock(lines, idx + 1, indent + 2);
      if sub.Parsed? {
        KeysAreDeep(lines, sub.next, indent, map[key := sub.value]);
        hide SubBlock;
        assert AllDeep(lines, idx + 1, sub.next, indent + 3);
      }
    }
  }

  /** The list parser after one item that ends before `next`. */
  lemma ItemThenList(lines: seq<Line>, idx: nat, next: nat, end: nat, indent: nat)
    requires idx < next <= end <= |lines|
    requires lines[idx].indent == indent && IsItem(lines[idx].content)
    requires AllDeep(lines, idx + 1, next, indent + 1) && ListShape(lines, next, end, indent)
    requires next == idx + 1 || ItemText(lines[idx].content) == "" || HasColon(ItemText(lines[idx].content))
    requires next < end ==> lines[next].indent == indent
    requires next == end ==> ListEnds(lines, end, indent)
    ensures ListShape(lines, idx, end, indent)
  {
    hide ItemText;
  }

  /** And a list block only if all of it has the shape of one. */
  lemma {:induction false} ListsAreWellFormed(lines: seq<Line>, idx: nat, indent: nat, items: seq<Value>)
    requires idx <= |lines|
    ensures var r := ListFrom(lines, idx, indent, items);
            r.Parsed? ==> ListShape(lines, idx, r.next, indent) && (idx < r.next ==> lines[idx].indent == indent)
    decreases |lines| - idx
  {
    hide ItemText, HasColon, IsItem, ParseScalar, Block, ItemMap, ListShape, AllDeep, IsReal;
    EmptyShape(lines, idx, indent);
    if !ListEnds(lines, idx, indent) && lines[idx].indent == indent {
      var text := ItemText(lines[idx].content);
      var sub := if text == "" then SubBlock(lines, idx + 1, indent)
                 else if HasColon(text) then ItemMap(lines, idx, indent, text)
                 else Parsed(ParseScalar(text), idx + 1);
      if sub.Parsed? {
        ListsAreWellFormed(lines, sub.next, indent, items + [sub.value]);
        var r := ListFrom(lines, sub.next, indent, items + [sub.value]);
        if r.Parsed? {
          if text != "" && HasColon(text) {
            ItemIsDeep(lines, idx, indent, text);
          }
          NothingBetween(lines, idx + 1, indent + 1);
          hide SubBlock, ListFrom;
          ItemThenList(lines, idx, sub.next, r.next, indent);
        }
      }
    }
  }

  lemma EmptyShape(lines: seq<Line>, idx: nat, indent: nat)
    ensures ListShape(lines, idx, idx, indent)
  {
  }

  lemma NothingBetween(lines: seq<Line>, idx: nat, indent: nat)
    ensures AllDeep(lines, idx, idx, indent)
  {
  }

  /** The two faults of a line of a map, exactly. */
  lemma MapRejectsExactly(lines: seq<Line>, idx: nat, indent: nat, result: map<string, Value>)
    requires idx < |lines|
    ensures MapFrom(lines, idx, indent, result) == Failed(UnexpectedIndent, idx) <==> lines[idx].indent > indent
    ensures MapFrom(lines, idx, indent, result) == Failed(MissingColon, idx) <==>
            lines[idx].indent == indent && ':' !in lines[idx].content
  {
    hide KeyOf, RestOf, ParseScalar, Block;
  }

  /** A line of a list has one. */
  lemma ListRejectsExactly(lines: seq<Line>, idx: nat, indent: nat, items: seq<Value>)
    requires idx < |lines|
    ensures ListFrom(lines, idx, indent, items) == Failed(UnexpectedListIndent, idx) <==> lines[idx].indent > indent
  {
    hide ItemText, HasColon, ParseScalar, Block, ItemMap;
  }

  lemma {:induction false} MapsAreMaps(lines: seq<Line>, idx: nat, indent: nat, result: map<string, Value>)
    requires idx <= |lines|
    ensures var r := MapFrom(lines, idx, indent, result); r.Parsed? ==> r.value.Map?
    decreases |lines| - idx
  {
    hide KeyOf, RestOf, HasColon, ParseScalar, Block;
    if !MapEnds(lines, idx, indent) && lines[idx].indent == indent && HasColon(lines[idx].content) {
      var key, rest := KeyOf(lines[idx].content), RestOf(lines[idx].content);
      var sub := if rest != "" then Parsed(ParseScalar(rest), idx + 1) else SubBlock(lines, idx + 1, indent);
      if sub.Parsed? {
        MapsAreMaps(lines, sub.next, indent, result[key := sub.value]);
      }
    }
  }

  lemma {:induction false} ListsAreLists(lines: seq<Line>, idx: nat, indent: nat, items: seq<Value>)
    requires idx <= |lines|
    ensures var r := ListFrom(lines, idx, indent, items); r.Parsed? ==> r.value.List? && items <= r.value.items
    decreases |lines| - idx
  {
    hide ItemText, HasColon, IsItem, ParseScalar, Block, ItemMap;
    if !ListEnds(lines, idx, indent) && lines[idx].indent == indent {
      var text := ItemText(lines[idx].content);
      var sub := if text == "" then SubBlock(lines, idx + 1, indent)
                 else if HasColon(text) then ItemMap(lines, idx, indent, text)
                 else Parsed(ParseScalar(text), idx + 1);
      if sub.Parsed? {
        ListsAreLists(lines, sub.next, indent, items + [sub.value]);
      }
    }
  }

  lemma {:induction false} KeysAreMaps(lines: seq<Line>, idx: nat, indent: nat, result: map<string, Value>)
    requires idx <= |lines|
    ensures var r := MoreKeys(lines, idx, indent, result); r.Parsed? ==> r.value.Map?
    decreases |lines| - idx
  {
    hide KeyOf, RestOf, ParseScalar, Block, KeysEnd;
    if !KeysEnd(lines, idx, indent) {
      KeysInside(lines, idx, indent);
      var key, rest := KeyOf(lines[idx].content), RestOf(lines[idx].content);
      var sub := if rest != "" then Parsed(ParseScalar(rest), idx + 1)
                 else SubBlock(lines, idx + 1, lines[idx].indent);
      if sub.Parsed? {
        KeysAreMaps(lines, sub.next, indent, result[key := sub.value]);
      }
    }
  }

  lemma KeysInside(lines: seq<Line>, idx: nat, indent: nat)
    requires !KeysEnd(lines, idx, indent)
    ensures idx < |lines|
  {
  }

  /** A block is a list if its first line starts with a dash and a map if not. */
  lemma BlockKind(lines: seq<Line>, idx: nat, indent: nat)
    requires idx < |lines|
    ensures var r, content := Block(lines, idx, indent), lines[idx].content;
            r.Parsed? ==> if content != "" && content[0] == '-' then r.value.List? else r.value.Map?
  {
    MapsAreMaps(lines, idx, indent, map[]);
    ListsAreLists(lines, idx, indent, []);
    hide MapFrom, ListFrom;
  }

  /** An item with text after its dash is a map if there is a colon in the text, and the scalar it denotes if not. */
  lemma ItemKind(lines: seq<Line>, idx: nat, indent: nat, items: seq<Value>, u: string)
    requires idx < |lines| && lines[idx].indent == indent && lines[idx].content == "-" + u && Trim(u) != ""
    ensures var r := ListFrom(lines, idx, indent, items);
            r.Parsed? ==>
              && r.value.List? && items < r.value.items
              && var v := r.value.items[|items|];
                 if ':' in Trim(u) then v.Map? else v == ParseScalar(Trim(u)) && r.next > idx
  {
    hide KeyOf, RestOf, ParseScalar, Trim, Block, MoreKeys;
    var text := Trim(u);
    assert ("-" + u)[1..] == u;
    var sub := if HasColon(text) then ItemMap(lines, idx, indent, text) else Parsed(ParseScalar(text), idx + 1);
    if sub.Parsed? {
      ListsAreLists(lines, sub.next, indent, items + [sub.value]);
      if HasColon(text) {
        ItemIsMap(lines, idx, indent, text);
      }
    }
  }

  lemma ItemIsMap(lines: seq<Line>, idx: nat, indent: nat, text: string)
    requires idx < |lines| && lines[idx].indent == indent
    ensures var r := ItemMap(lines, idx, indent, text); r.Parsed? ==> r.value.Map?
  {
    hide KeyOf, RestOf, ParseScalar, Block, MoreKeys;
    var key, rest := KeyOf(text), RestOf(text);
    var sub := if rest != "" then Parsed(ParseScalar(rest), idx + 1) else SubBlock(lines, idx + 1, indent + 2);
    if sub.Parsed? {
      KeysAreMaps(lines, sub.next, indent, map[key := sub.value]);
    }
  }

  /** The keys of an item stop exactly at the end, at a shallower line, at an item or at a line without colon. */
  lemma KeysStopExactly(lines: seq<Line>, idx: nat, indent: nat, result: map<string, Value>)
    requires idx <= |lines|
    ensures MoreKeys(lines, idx, indent, result) == Parsed(Map(result), idx) <==>
            || idx == |lines| || lines[idx].indent <= indent
            || (lines[idx].content != "" && lines[idx].content[0] == '-') || ':' !in lines[idx].content
  {
    hide KeyOf, RestOf, ParseScalar, Block;
    if !KeysEnd(lines, idx, indent) {
      var key, rest := KeyOf(lines[idx].content), RestOf(lines[idx].content);
      if rest == "" {
        var sub := SubBlock(lines, idx + 1, lines[idx].indent);
        if sub.Parsed? {
          KeysGoOn(lines, sub.next, indent, result[key := sub.value]);
        }
      } else {
        KeysGoOn(lines, idx + 1, indent, result[key := ParseScalar(rest)]);
      }
    }
  }

  lemma KeysGoOn(lines: seq<Line>, idx: nat, indent: nat, result: map<string, Value>)
    requires idx <= |lines|
    ensures var r := MoreKeys(lines, idx, indent, result); r.Parsed? ==> r.next >= idx
  {
  }
}
