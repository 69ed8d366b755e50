/**
 The text level of the YAML subset (internal/config/yaml.go): lines, comments, indentation, scalars.
 Strings are sequences of characters.
 */
module YamlText {
  import opened Decimal
  import opened Options

  // ---------------------------------------------------------------------------------------------
  // White space
  // ---------------------------------------------------------------------------------------------

  /** Unicode white space, as `strings.TrimSpace` sees it. */
  predicate IsSpace(c: char) {
    || c in {'\t', '\n', '\r', ' ', '\U{0B}', '\U{0C}', '\U{85}', '\U{A0}', '\U{1680}'}
    || '\U{2000}' <= c <= '\U{200A}'
    || c in {'\U{2028}', '\U{2029}', '\U{202F}', '\U{205F}', '\U{3000}'}
  }

  function TrimLeft(s: string): string {
    if s != "" && IsSpace(s[0]) then TrimLeft(s[1..]) else s
  }

  function TrimRight(s: string): string {
    if s != "" && IsSpace(s[|s| - 1]) then TrimRight(s[..|s| - 1]) else s
  }

  function Trim(s: string): string {
    TrimRight(TrimLeft(s))
  }

  /** No white space at either end. */
  predicate Tight(s: string) {
    s == "" || (!IsSpace(s[0]) && !IsSpace(s[|s| - 1]))
  }

  lemma {:induction false} TrimSpaces(n: nat, s: string)
    requires Tight(s)
    ensures Trim(Spaces(n) + s) == s
  {
    if n == 0 {
      assert Spaces(0) + s == s;
    } else {
      var t := Spaces(n) + s;
      assert t[0] == ' ' && t[1..] == Spaces(n - 1) + s;
      TrimSpaces(n - 1, s);
    }
  }

  function Spaces(n: nat): string {
    seq(n, _ => ' ')
  }

  // ---------------------------------------------------------------------------------------------
  // Lines
  // ---------------------------------------------------------------------------------------------

  /** The offset of the first `c`, or the length when there is none. */
  function IndexOf(s: string, c: char): (i: nat)
    ensures i <= |s|
    ensures i < |s| ==> s[i] == c
    ensures c !in s[..i]
  {
    if s == "" || s[0] == c then 0
    else
      var i := IndexOf(s[1..], c);
      assert s[..1 + i] == [s[0]] + s[1..][..i];
      1 + i
  }

  function DropCR(s: string): string {
    if s != "" && s[|s| - 1] == '\r' then s[..|s| - 1] else s
  }

  /** The lines a scanner yields: split at line feeds, one trailing carriage return dropped. */
  function ScanLines(data: string): seq<string>
    decreases |data|
  {
    if data == "" then []
    else
      var i := IndexOf(data, '\n');
      if i == |data| then [DropCR(data)] else [DropCR(data[..i])] + ScanLines(data[i + 1..])
  }

  // ---------------------------------------------------------------------------------------------
  // Comments and indentation
  // ---------------------------------------------------------------------------------------------

  datatype Quoting = Outside | InSingle | InDouble

  /** The effect of one character on the quoting state. */
  function Next(q: Quoting, c: char): Quoting {
    if c == '\'' && q != InDouble then (if q == InSingle then Outside else InSingle)
    else if c == '"' && q != InSingle then (if q == InDouble then Outside else InDouble)
    else q
  }

  /** The quoting state after `s`, or nothing if a comment starts in it. */
  datatype Scan = Comment | At(q: Quoting)

  function ScanFrom(q: Quoting, s: string): Scan
    decreases s
  {
    if s == "" then At(q)
    else if s[0] == '#' && q == Outside then Comment
    else ScanFrom(Next(q, s[0]), s[1..])
  }

  /** The line without its comment. */
  function Uncommented(q: Quoting, s: string): string
    decreases s
  {
    if s == "" || (s[0] == '#' && q == Outside) then ""
    else [s[0]] + Uncommented(Next(q, s[0]), s[1..])
  }

  /** What is left is the part before the first '#' outside quotes, or the whole line when there is none. */
  lemma {:induction false} UncommentedStops(q: Quoting, s: string)
    ensures var r := Uncommented(q, s);
            r <= s && ScanFrom(q, r).At? && (|r| < |s| ==> s[|r|] == '#' && ScanFrom(q, r) == At(Outside))
    decreases s
  {
    if s != "" && !(s[0] == '#' && q == Outside) {
      var rest := Uncommented(Next(q, s[0]), s[1..]);
      UncommentedStops(Next(q, s[0]), s[1..]);
      assert ([s[0]] + rest)[1..] == rest;
    }
  }

  /** Cuts the line before the first '#' read outside quotes. */
  method StripComment(s: string) returns (r: string)
    ensures r == Uncommented(Outside, s)
    ensures r <= s && ScanFrom(Outside, r).At?
    ensures |r| < |s| ==> s[|r|] == '#' && ScanFrom(Outside, r) == At(Outside)
  {
    UncommentedStops(Outside, s);
    hide ScanFrom, Uncommented;
    var inSingle, inDouble := false, false;
    ghost var q := Outside;
    for i := 0 to |s|
      invariant q == if inSingle then InSingle else if inDouble then InDouble else Outside
      invariant !(inSingle && inDouble)
      invariant Uncommented(Outside, s) == s[..i] + Uncommented(q, s[i..])
    {
      var ch := s[i];
      UncommentedStep(q, s, i);
      q := Next(q, ch);
      if ch == '\'' && !inDouble {
        inSingle := !inSingle;
      } else if ch == '"' && !inSingle {
        inDouble := !inDouble;
      } else if ch == '#' && !inSingle && !inDouble {
        return s[..i];
      }
    }
    UncommentedEnd(q, s);
    return s;
  }

  lemma UncommentedStep(q: Quoting, s: string, i: nat)
    requires i < |s|
    ensures s[..i] + Uncommented(q, s[i..])
         == if s[i] == '#' && q == Outside then s[..i] else s[..i + 1] + Uncommented(Next(q, s[i]), s[i + 1..])
  {
    hide Next;
    assert s[i..][0] == s[i] && s[i..][1..] == s[i + 1..] && s[..i + 1] == s[..i] + [s[i]];
  }

  lemma UncommentedEnd(q: Quoting, s: string)
    ensures s[..|s|] + Uncommented(q, s[|s|..]) == s
  {
    assert s[|s|..] == "";
  }

  /** A line without a comment is left as it is. */
  lemma {:induction false} UncommentedWhole(q: Quoting, s: string)
    requires ScanFrom(q, s).At?
    ensures Uncommented(q, s) == s
    decreases s
  {
    if s != "" {
      UncommentedWhole(Next(q, s[0]), s[1..]);
    }
  }

  lemma {:induction false} ScanConcat(q: Quoting, s: string, t: string)
    ensures ScanFrom(q, s + t) == match ScanFrom(q, s) case Comment => Comment case At(p) => ScanFrom(p, t)
    decreases s
  {
    if s == "" {
      assert s + t == t;
    } else {
      assert (s + t)[0] == s[0] && (s + t)[1..] == s[1..] + t;
      ScanConcat(Next(q, s[0]), s[1..], t);
    }
  }

  /** Leading blanks, a tab counting for two. */
  function Indentation(s: string): nat {
    if s == "" then 0
    else if s[0] == ' ' then 1 + Indentation(s[1..])
    else if s[0] == '\t' then 2 + Indentation(s[1..])
    else 0
  }

  method CountIndent(s: string) returns (count: nat)
    ensures count == Indentation(s)
  {
    count := 0;
    for i := 0 to |s|
      invariant Indentation(s) == count + Indentation(s[i..])
    {
      assert s[i..][0] == s[i] && s[i..][1..] == s[i + 1..];
      if s[i] == ' ' {
        count := count + 1;
      } else if s[i] == '\t' {
        count := count + 2;
      } else {
        return;
      }
    }
  }

  lemma {:induction false} IndentationOfSpaces(n: nat, s: string)
    requires s != "" && !IsSpace(s[0])
    ensures Indentation(Spaces(n) + s) == n
  {
    if n == 0 {
      assert Spaces(0) + s == s;
    } else {
      var t := Spaces(n) + s;
      assert t[0] == ' ' && t[1..] == Spaces(n - 1) + s;
      IndentationOfSpaces(n - 1, s);
    }
  }

  // ---------------------------------------------------------------------------------------------
  // Scalars
  // ---------------------------------------------------------------------------------------------

  /** `Plain` is unquoted text that is no keyword and no integer; the program may still read it as a float. */
  datatype Value = Null | Bool(b: bool) | Int(n: int) | Str(s: string) | Plain(text: string)
                 | Map(m: map<string, Value>) | List(items: seq<Value>)

  function Unquote(s: string): string {
    var quoted := |s| >= 2 && ((s[0] == '"' && s[|s| - 1] == '"') || (s[0] == '\'' && s[|s| - 1] == '\''));
    if quoted then s[1..|s| - 1] else s
  }

  /** Starts and ends with the same quote; one quote alone counts as both. */
  predicate IsQuoted(s: string) {
    s != "" && s[0] == s[|s| - 1] && (s[0] == '"' || s[0] == '\'')
  }

  function LowerChar(c: char): char {
    if 'A' <= c <= 'Z' then c - 'A' + 'a' else c
  }

  function Lower(s: string): string {
    seq(|s|, i requires 0 <= i < |s| => LowerChar(s[i]))
  }

  const MIN_INT64: int := -0x8000_0000_0000_0000
  const MAX_INT64: int := 0x7FFF_FFFF_FFFF_FFFF

  /** A decimal integer with an optional sign that fits 64 bits. */
  function ParseInt(s: string): Option<int> {
    var signed := s != "" && (s[0] == '-' || s[0] == '+');
    var digits := if signed then s[1..] else s;
    if digits == "" || !AllDigits(digits) then None
    else
      var v: int := Decimal.Value(digits);
      var n := if signed && s[0] == '-' then -v else v;
      if MIN_INT64 <= n <= MAX_INT64 then Some(n) else None
  }

  function ParseScalar(val: string): Value {
    var s := Trim(val);
    var lower := Lower(s);
    if IsQuoted(s) then Str(Unquote(s))
    else if lower in {"true", "yes", "on"} then Bool(true)
    else if lower in {"false", "no", "off"} then Bool(false)
    else if lower in {"null", "~"} then Null
    else
      match ParseInt(s)
      case Some(n) => Int(n)
      case None => Plain(s)
  }

  lemma TrimTight(s: string)
    requires Tight(s)
    ensures Trim(s) == s
  {
    TrimSpaces(0, s);
    assert Spaces(0) + s == s;
  }

  lemma PrintedIsTight(n: int)
    ensures Tight(PrintInt(n))
  {
    hide Print;
    PrintIntChars(n);
  }

  lemma PrintedIsParsed(n: int)
    requires MIN_INT64 <= n <= MAX_INT64
    ensures ParseInt(PrintInt(n)) == Some(n)
  {
    var digits := Print(if n < 0 then -n else n);
    PrintRoundTrip(if n < 0 then -n else n);
    hide Print, Decimal.Value;
    assert n < 0 ==> PrintInt(n)[0] == '-' && PrintInt(n)[1..] == digits;
  }

  lemma PrintedEndsInDigit(n: int)
    ensures IsDigit(PrintInt(n)[|PrintInt(n)| - 1])
  {
    hide Print, Decimal.Value;
    PrintRoundTrip(if n < 0 then -n else n);
  }

  /** Printed integers are read back. */
  lemma IntScalar(n: int)
    requires MIN_INT64 <= n <= MAX_INT64
    ensures ParseScalar(PrintInt(n)) == Int(n)
  {
    hide PrintInt, Trim, ParseInt, Lower, IsQuoted, Unquote;
    PrintedIsTight(n);
    TrimTight(PrintInt(n));
    PrintedIsParsed(n);
    PrintedEndsInDigit(n);
    NotAKeyword(PrintInt(n));
  }

  /** Texts that end in a digit are no keywords. */
  lemma NotAKeyword(s: string)
    requires s != "" && IsDigit(s[|s| - 1])
    ensures !IsQuoted(s) && Lower(s) !in {"true", "yes", "on", "false", "no", "off", "null", "~"}
  {
    var lower := Lower(s);
    assert lower[|lower| - 1] == s[|s| - 1];
    forall w: string | w in {"true", "yes", "on", "false", "no", "off", "null", "~"} ensures w[|w| - 1] != s[|s| - 1] {
    }
  }

  function Quote(s: string): string {
    "\"" + s + "\""
  }

  /** Double-quoted text is read back as it is, whatever it contains. */
  lemma QuotedScalar(s: string)
    ensures ParseScalar(Quote(s)) == Str(s) && Unquote(Quote(s)) == s && Tight(Quote(s))
  {
    var q := Quote(s);
    assert q[0] == '"' && q[|q| - 1] == '"' && q[1..|q| - 1] == s;
    TrimTight(q);
  }

  lemma NullScalar()
    ensures ParseScalar("null") == Null
  {
    TrimTight("null");
    assert Lower("null") == "null";
  }

  // ---------------------------------------------------------------------------------------------
  // What a scalar denotes, said without the parser
  // ---------------------------------------------------------------------------------------------

  /** `t` is the small-letter word `w`, with any of its letters capital. */
  ghost predicate Spelled(t: string, w: string) {
    |t| == |w| && forall i :: 0 <= i < |w| ==> t[i] == w[i] || ('a' <= w[i] <= 'z' && t[i] as int == w[i] as int - 32)
  }

  ghost predicate SpelledAs(t: string, words: seq<string>) {
    exists k :: 0 <= k < |words| && Spelled(t, words[k])
  }

  const TRUE_WORDS := ["true", "yes", "on"]
  const FALSE_WORDS := ["false", "no", "off"]
  const NULL_WORDS := ["null", "~"]

  /** `s` between two quotes of the same kind. */
  predicate InQuotes(t: string, s: string) {
    t == "\"" + s + "\"" || t == "'" + s + "'"
  }

  /** One quote by itself counts as quoted and stands for itself. */
  predicate IsLoneQuote(t: string) {
    t == "\"" || t == "'"
  }

  /** Decimal digits with at most one sign in front, of value `n`. */
  predicate IsNumeral(t: string, n: int) {
    || (t != "" && AllDigits(t) && n == Decimal.Value(t))
    || (|t| > 1 && t[0] == '+' && AllDigits(t[1..]) && n == Decimal.Value(t[1..]))
    || (|t| > 1 && t[0] == '-' && AllDigits(t[1..]) && -n == Decimal.Value(t[1..]))
  }

  ghost predicate IsInteger(t: string) {
    exists n :: MIN_INT64 <= n <= MAX_INT64 && IsNumeral(t, n)
  }

  /** Text that is neither quoted, nor a keyword, nor a 64-bit integer. */
  ghost predicate IsPlain(t: string) {
    && !(exists s :: InQuotes(t, s)) && !IsLoneQuote(t)
    && !SpelledAs(t, TRUE_WORDS) && !SpelledAs(t, FALSE_WORDS) && !SpelledAs(t, NULL_WORDS)
    && !IsInteger(t)
  }

  /** The value a scalar text stands for. */
  ghost predicate Denotes(t: string, v: Value) {
    match v
    case Str(s) => InQuotes(t, s) || (IsLoneQuote(t) && s == t)
    case Bool(b) => SpelledAs(t, if b then TRUE_WORDS else FALSE_WORDS)
    case Null => SpelledAs(t, NULL_WORDS)
    case Int(n) => MIN_INT64 <= n <= MAX_INT64 && IsNumeral(t, n)
    case Plain(s) => s == t && IsPlain(t)
    case _ => false
  }

  lemma LowerIsSpelling(t: string, w: string)
    requires forall i :: 0 <= i < |w| ==> 'a' <= w[i] <= 'z' || w[i] == '~'
    ensures Lower(t) == w <==> Spelled(t, w)
  {
    if Spelled(t, w) {
      assert forall i :: 0 <= i < |w| ==> Lower(t)[i] == w[i];
    }
    if Lower(t) == w {
      forall i | 0 <= i < |w| ensures t[i] == w[i] || ('a' <= w[i] <= 'z' && t[i] as int == w[i] as int - 32) {
        assert Lower(t)[i] == w[i];
      }
    }
  }

  lemma LowerIsKeyword(t: string)
    ensures Lower(t) in {"true", "yes", "on"} <==> SpelledAs(t, TRUE_WORDS)
    ensures Lower(t) in {"false", "no", "off"} <==> SpelledAs(t, FALSE_WORDS)
    ensures Lower(t) in {"null", "~"} <==> SpelledAs(t, NULL_WORDS)
  {
    forall k | 0 <= k < 3 ensures Lower(t) == TRUE_WORDS[k] <==> Spelled(t, TRUE_WORDS[k]) {
      LowerIsSpelling(t, TRUE_WORDS[k]);
    }
    forall k | 0 <= k < 3 ensures Lower(t) == FALSE_WORDS[k] <==> Spelled(t, FALSE_WORDS[k]) {
      LowerIsSpelling(t, FALSE_WORDS[k]);
    }
    forall k | 0 <= k < 2 ensures Lower(t) == NULL_WORDS[k] <==> Spelled(t, NULL_WORDS[k]) {
      LowerIsSpelling(t, NULL_WORDS[k]);
    }
    hide Spelled, Lower;
    assert TRUE_WORDS[0] == "true" && TRUE_WORDS[1] == "yes" && TRUE_WORDS[2] == "on";
    assert FALSE_WORDS[0] == "false" && FALSE_WORDS[1] == "no" && FALSE_WORDS[2] == "off";
    assert NULL_WORDS[0] == "null" && NULL_WORDS[1] == "~";
  }

  lemma IntIsNumeral(t: string)
    ensures forall n :: ParseInt(t) == Some(n) <==> MIN_INT64 <= n <= MAX_INT64 && IsNumeral(t, n)
    ensures ParseInt(t) == None <==> !IsInteger(t)
  {
    hide Decimal.Value;
    assert t != "" && AllDigits(t) ==> IsDigit(t[0]);
    forall n ensures ParseInt(t) == Some(n) <==> MIN_INT64 <= n <= MAX_INT64 && IsNumeral(t, n) {
    }
  }

  lemma QuotedIsInQuotes(t: string)
    ensures IsQuoted(t) <==> IsLoneQuote(t) || exists s :: InQuotes(t, s)
    ensures forall s :: InQuotes(t, s) ==> IsQuoted(t) && Unquote(t) == s
    ensures IsLoneQuote(t) ==> Unquote(t) == t && !exists s :: InQuotes(t, s)
    ensures IsQuoted(t) && !IsLoneQuote(t) ==> InQuotes(t, Unquote(t))
  {
    if IsQuoted(t) && |t| >= 2 {
      assert t == [t[0]] + t[1..|t| - 1] + [t[|t| - 1]];
      assert InQuotes(t, t[1..|t| - 1]);
    }
    forall s | InQuotes(t, s) ensures IsQuoted(t) && Unquote(t) == s {
      assert t[1..|t| - 1] == s;
    }
  }

  /** Quoted and numeric texts are no keywords, and the keywords of the three kinds differ. */
  lemma KindsAreApart(t: string)
    ensures IsQuoted(t) ==> !SpelledAs(t, TRUE_WORDS) && !SpelledAs(t, FALSE_WORDS) && !SpelledAs(t, NULL_WORDS)
    ensures IsQuoted(t) ==> ParseInt(t) == None
    ensures ParseInt(t).Some? ==> !SpelledAs(t, TRUE_WORDS) && !SpelledAs(t, FALSE_WORDS) && !SpelledAs(t, NULL_WORDS)
  {
    LowerIsKeyword(t);
    hide Decimal.Value, SpelledAs, Unquote;
    var lower := Lower(t);
    if IsQuoted(t) {
      assert lower[0] == t[0];
    }
    if ParseInt(t).Some? {
      assert IsDigit(t[|t| - 1]);
      NotAKeyword(t);
    }
  }

  /** A scalar is parsed as exactly what it denotes. */
  lemma ScalarDenotes(t: string, v: Value)
    requires Tight(t)
    ensures ParseScalar(t) == v <==> Denotes(t, v)
  {
    TrimTight(t);
    LowerIsKeyword(t);
    IntIsNumeral(t);
    QuotedIsInQuotes(t);
    KindsAreApart(t);
    hide Lower, SpelledAs, IsNumeral, InQuotes, IsLoneQuote, Unquote, IsQuoted, ParseInt, Trim, IsInteger;
  }

  // ---------------------------------------------------------------------------------------------
  // What a line is made of
  // ---------------------------------------------------------------------------------------------

  /** Blanks and tabs. */
  predicate AreBlanks(w: string) {
    forall i :: 0 <= i < |w| ==> w[i] == ' ' || w[i] == '\t'
  }

  /** A blank in front of a line counts for one, a tab for two. */
  lemma {:induction false} IndentationOfBlanks(w: string, s: string)
    requires AreBlanks(w) && (s != "" ==> s[0] != ' ' && s[0] != '\t')
    ensures Indentation(w + s) == multiset(w)[' '] + 2 * multiset(w)['\t']
  {
    if w == "" {
      assert w + s == s;
    } else {
      assert (w + s)[0] == w[0] && (w + s)[1..] == w[1..] + s;
      IndentationOfBlanks(w[1..], s);
      assert w == [w[0]] + w[1..];
    }
  }

  /** White space around a text is trimmed. */
  lemma {:induction false} TrimBlanks(w: string, s: string, x: string)
    requires AreBlanks(w) && AreBlanks(x) && Tight(s) && s != ""
    ensures Trim(w + s + x) == s
  {
    if w != "" {
      assert (w + s + x)[0] == w[0] && (w + s + x)[1..] == w[1..] + s + x;
      TrimBlanks(w[1..], s, x);
    } else {
      assert w + s + x == s + x;
      assert TrimLeft(s + x) == s + x;
      TrimRightBlanks(s, x);
    }
  }

  lemma {:induction false} TrimRightBlanks(s: string, x: string)
    requires AreBlanks(x) && s != "" && !IsSpace(s[|s| - 1])
    ensures TrimRight(s + x) == s
  {
    if x == "" {
      assert s + x == s;
    } else {
      var t := s + x;
      assert t[|t| - 1] == x[|x| - 1] && t[..|t| - 1] == s + x[..|x| - 1];
      TrimRightBlanks(s, x[..|x| - 1]);
    }
  }

  lemma {:induction false} BlanksTrimToNothing(w: string)
    requires AreBlanks(w)
    ensures Trim(w) == ""
  {
    if w != "" {
      BlanksTrimToNothing(w[1..]);
    }
  }

  /** Blanks change nothing about quotes. */
  lemma {:induction false} ScanBlanks(q: Quoting, w: string)
    requires AreBlanks(w)
    ensures ScanFrom(q, w) == At(q)
  {
    if w != "" {
      ScanBlanks(q, w[1..]);
    }
  }

  /** What follows a '#' outside quotes is dropped. */
  lemma {:induction false} CommentIsDropped(q: Quoting, s: string, comment: string)
    requires ScanFrom(q, s) == At(Outside)
    ensures Uncommented(q, s + "#" + comment) == s
    decreases s
  {
    var t := s + "#" + comment;
    if s == "" {
      assert t[0] == '#';
    } else {
      assert t[0] == s[0] && t[1..] == s[1..] + "#" + comment;
      CommentIsDropped(Next(q, s[0]), s[1..], comment);
      assert s == [s[0]] + s[1..];
    }
  }

  /** A line ends at a line feed, and a carriage return before it does not count. */
  lemma LineEnds(line: string, rest: string)
    requires '\n' !in line && (line != "" ==> line[|line| - 1] != '\r')
    ensures ScanLines(line + "\n" + rest) == [line] + ScanLines(rest)
    ensures ScanLines(line + "\r\n" + rest) == [line] + ScanLines(rest)
  {
    hide ScanLines, DropCR;
    FirstLineFeed(line, rest);
    FirstLineFeed(line + "\r", rest);
    assert (line + "\r") + "\n" + rest == line + "\r\n" + rest;
    CarriageReturns(line);
  }

  lemma CarriageReturns(line: string)
    requires line != "" ==> line[|line| - 1] != '\r'
    ensures DropCR(line) == line && DropCR(line + "\r") == line
  {
    assert (line + "\r")[..|line|] == line;
  }

  lemma FirstLineFeed(line: string, rest: string)
    requires '\n' !in line
    ensures ScanLines(line + "\n" + rest) == [DropCR(line)] + ScanLines(rest)
  {
    var data := line + "\n" + rest;
    var i := IndexOf(data, '\n');
    assert data[|line|] == '\n' && forall k :: 0 <= k < |line| ==> data[k] == line[k] != '\n';
    assert forall k :: 0 <= k < i ==> data[..i][k] == data[k];
    assert i == |line|;
    assert data[..i] == line && data[i + 1..] == rest;
  }
}
