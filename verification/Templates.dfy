/** Error-code templates: the writer that appends a block of translation slots to a file of codes, and the
    parser that reads such blocks back. Both rest on regular expressions, written out here as functions. */
module Templates {
  import opened Seqs
  import opened Results
  import opened Text

  // ----- Characters -----

  predicate IsUpperCode(c: char) {
    'A' <= c <= 'Z' || '0' <= c <= '9' || c == '_'
  }

  predicate IsWord(c: char) {
    IsUpperCode(c) || 'a' <= c <= 'z'
  }

  predicate IsLower(c: char) {
    'a' <= c <= 'z'
  }

  /** The class `\s` of Go's regular expressions. */
  predicate IsWhite(c: char) {
    IsSpace(c) && c as int != 11
  }

  /** The classes, written out. */
  lemma ClassesAre(c: char)
    ensures IsUpperCode(c) <==> c in "ABCDEFGHIJKLMNOPQRSTUVWXYZ" || c in "0123456789" || c == '_'
    ensures IsLower(c) <==> c in "abcdefghijklmnopqrstuvwxyz"
    ensures IsWord(c) <==> IsUpperCode(c) || IsLower(c)
    ensures IsWhite(c) <==> c == ' ' || c as int in {9, 10, 12, 13}
    ensures IsBlank(c) <==> c in " \t\r"
  {
    CapitalsAre(c);
    SmallLettersAre(c);
  }

  function Drop(s: string, n: nat): string {
    if n <= |s| then s[n..] else ""
  }

  /** The length of the longest prefix of characters in a class. */
  function Span(s: string, inClass: char -> bool): (n: nat)
    ensures n <= |s|
    ensures forall i :: 0 <= i < n ==> inClass(s[i])
    ensures n < |s| ==> !inClass(s[n])
  {
    if s != "" && inClass(s[0]) then
      var m := Span(s[1..], inClass);
      assert forall i :: 1 <= i < m + 1 ==> s[i] == s[1..][i - 1];
      m + 1
    else 0
  }

  lemma {:induction false} SpanAppend(a: string, b: string, inClass: char -> bool)
    requires forall i :: 0 <= i < |a| ==> inClass(a[i])
    requires b != "" ==> !inClass(b[0])
    ensures Span(a + b, inClass) == |a|
  {
    if a == "" {
      assert a + b == b;
    } else {
      assert (a + b)[1..] == a[1..] + b;
      SpanAppend(a[1..], b, inClass);
    }
  }

  lemma {:induction false} SpanConcat(a: string, b: string, inClass: char -> bool)
    ensures Span(a + b, inClass) == if Span(a, inClass) < |a| then Span(a, inClass) else |a| + Span(b, inClass)
  {
    if a == "" {
      assert a + b == b;
    } else {
      assert (a + b)[1..] == a[1..] + b;
      SpanConcat(a[1..], b, inClass);
    }
  }

  function Spaces(): char -> bool { c => IsWhite(c) }
  function Words(): char -> bool { c => IsWord(c) }
  function UpperCodes(): char -> bool { c => IsUpperCode(c) }
  function Lowers(): char -> bool { c => IsLower(c) }
  function NotQuote(): char -> bool { c => c != '"' }
  function NotAngle(): char -> bool { c => c != '>' }

  // ----- The writer -----

  /** `"([^"]+)"` at the start of `s`: the code and what follows the match. */
  function MatchQuoted(s: string): Option<(string, string)> {
    if s == "" || s[0] != '"' then None
    else
      var code := Span(s[1..], NotQuote());
      if code == 0 || code == |s| - 1 then None
      else Some((s[1..][..code], s[1..][code + 1..]))
  }

  /** `\s*=\s*` and what follows it. */
  function MatchEquals(s: string): Option<string> {
    var eq := s[Span(s, Spaces())..];
    if eq == "" || eq[0] != '=' then None else Some(eq[1..][Span(eq[1..], Spaces())..])
  }

  /** `\s*=\s*"([^"]+)"`. */
  function MatchValue(s: string): Option<(string, string)> {
    match MatchEquals(s)
    case None => None
    case Some(rest) => MatchQuoted(rest)
  }

  /** `Code[A-Za-z0-9_]+\s*=\s*"([^"]+)"` at the start of `s`. */
  function MatchCode(s: string): Option<(string, string)> {
    if !HasPrefix(s, "Code") then None
    else
      var name := Span(s[4..], Words());
      if name == 0 then None else MatchValue(s[4..][name..])
  }

  /** All matches from left to right. */
  function FindCodes(s: string): seq<string>
    decreases |s|
  {
    if s == "" then []
    else
      match MatchCode(s)
      case None => FindCodes(s[1..])
      case Some(m) => if |m.1| < |s| then [m.0] + FindCodes(m.1) else []
  }

  // A comment opening, white space with a line break in it, and an exclamation mark, somewhere in `s`.
  predicate BlockAt(s: string) {
    HasPrefix(s, "/*") &&
    var n := Span(s[2..], Spaces());
    n < |s| - 2 && s[2..][n] == '!' && '\n' in s[2..][..n]
  }

  predicate HasBlock(s: string) {
    s != "" && (BlockAt(s) || HasBlock(s[1..]))
  }

  /** `codeToEn`. */
  function CodeToEn(code: string): string {
    seq(|code|, i requires 0 <= i < |code| => if code[i] == '_' then ' ' else LowerChar(code[i]))
  }

  function HintLine(code: string): string {
    "*en<" + CodeToEn(code) + ">"
  }

  function EntryText(code: string): string {
    "!" + code + "\n" + HintLine(code) + "\n*zh<>\n*fr<>\n\n"
  }

  function Entries(codes: seq<string>): string {
    if codes == [] then "" else EntryText(codes[0]) + Entries(codes[1..])
  }

  function Block(codes: seq<string>): string {
    "\n\n/*\n" + Entries(codes) + "*/"
  }

  /** `strings.TrimRight(content, "\n\t ")`. */
  function TrimTail(s: string): string {
    if s != "" && (s[|s| - 1] == '\n' || s[|s| - 1] == '\t' || s[|s| - 1] == ' ') then TrimTail(s[..|s| - 1]) else s
  }

  /** Just the line breaks, tabs and spaces at the end go. */
  lemma {:induction false} TrimTailIs(s: string)
    ensures TrimTail(s) <= s && (forall i :: |TrimTail(s)| <= i < |s| ==> s[i] in "\n\t ")
    ensures TrimTail(s) != "" ==> TrimTail(s)[|TrimTail(s)| - 1] !in "\n\t "
  {
    if s != "" && s[|s| - 1] in "\n\t " { TrimTailIs(s[..|s| - 1]); }
  }

  /** The file after `AddBlockIfMissing`. */
  function WithBlock(content: string): string {
    if HasBlock(content) then content
    else
      var codes := FindCodes(content);
      if codes == [] then content else TrimTail(content) + Block(codes) + "\n"
  }

  method AddBlockIfMissing(content: string) returns (out: string)
    ensures out == WithBlock(content)
  {
    if HasBlock(content) {
      return content;
    }
    var codes := FindCodes(content);
    if |codes| == 0 {
      return content;
    }
    var block := "\n\n/*\n";
    for i := 0 to |codes|
      invariant block + Entries(codes[i..]) == "\n\n/*\n" + Entries(codes)
    {
      assert codes[i..][1..] == codes[i + 1..];
      var enHint := CodeToEn(codes[i]);
      block := block + ("!" + codes[i] + "\n" + ("*en<" + enHint + ">") + "\n*zh<>\n*fr<>\n\n");
    }
    block := block + "*/";
    return TrimTail(content) + block + "\n";
  }

  // ----- The parser -----

  predicate IsBlank(c: char) {
    c == ' ' || c == '\t' || c == '\r'
  }

  function TrimLeftBlank(s: string): string {
    if s != "" && IsBlank(s[0]) then TrimLeftBlank(s[1..]) else s
  }

  function TrimRightBlank(s: string): string {
    if s != "" && IsBlank(s[|s| - 1]) then TrimRightBlank(s[..|s| - 1]) else s
  }

  function TrimBlank(s: string): string {
    TrimRightBlank(TrimLeftBlank(s))
  }

  /** `trimSpace`. */
  method TrimLine(s: string) returns (r: string)
    ensures r == TrimBlank(s)
  {
    var i := 0;
    while i < |s| && IsBlank(s[i])
      invariant i <= |s| && TrimLeftBlank(s) == TrimLeftBlank(s[i..])
    {
      assert s[i..][1..] == s[i + 1..];
      i := i + 1;
    }
    assert TrimLeftBlank(s) == s[i..];
    var j := |s|;
    assert s[i..j] == s[i..];
    while j > i && IsBlank(s[j - 1])
      invariant i <= j <= |s| && TrimRightBlank(s[i..]) == TrimRightBlank(s[i..j])
    {
      assert s[i..j][..j - i - 1] == s[i..j - 1];
      j := j - 1;
    }
    return s[i..j];
  }

  function TrimEach(lines: seq<string>): seq<string> {
    if lines == [] then [] else [TrimBlank(lines[0])] + TrimEach(lines[1..])
  }

  lemma {:induction false} TrimEachAppend(a: seq<string>, b: seq<string>)
    ensures TrimEach(a + b) == TrimEach(a) + TrimEach(b)
  {
    if a == [] {
      EmptyFirst(b);
      EmptyFirst(TrimEach(b));
    } else {
      TrimEachAppend(a[1..], b);
      HeadAndTail(a, b);
      Associates([TrimBlank(a[0])], TrimEach(a[1..]), TrimEach(b));
    }
  }

  /** `splitLines`. */
  method SplitLines(s: string) returns (out: seq<string>)
    ensures out == TrimEach(Split(s, '\n'))
  {
    out := [];
    var start := 0;
    var i := 0;
    ghost var whole := TrimEach(Split(s, '\n'));
    while i <= |s|
      invariant 0 <= start <= i <= |s| + 1
      invariant i <= |s| ==> '\n' !in s[start..i] && out + TrimEach(Split(s[start..], '\n')) == whole
      invariant i == |s| + 1 ==> out == whole
    {
      if i == |s| || s[i] == '\n' {
        var line := TrimLine(s[start..i]);
        ghost var more := if i == |s| then [] else TrimEach(Split(s[i + 1..], '\n'));
        assert TrimEach(Split(s[start..], '\n')) == [line] + more by { TakeLine(s, start, i); }
        Associates(out, [line], more);
        out := out + [line];
        start := i + 1;
        if i == |s| { start := i; }
      }
      i := i + 1;
    }
  }

  lemma TakeLine(s: string, start: nat, i: nat)
    requires start <= i <= |s| && '\n' !in s[start..i] && (i < |s| ==> s[i] == '\n')
    ensures TrimEach(Split(s[start..], '\n')) ==
            [TrimBlank(s[start..i])] + (if i == |s| then [] else TrimEach(Split(s[i + 1..], '\n')))
  {
    LineCut(s[start..], i - start);
    assert s[start..][..i - start] == s[start..i];
    assert i < |s| ==> s[start..][i - start + 1..] == s[i + 1..];
  }

  lemma TrimEachOne(line: string)
    ensures TrimEach([line]) == [TrimBlank(line)]
  {
    assert [line][1..] == [];
  }

  lemma LineCut(s: string, n: nat)
    requires n <= |s| && '\n' !in s[..n] && (n < |s| ==> s[n] == '\n')
    ensures TrimEach(Split(s, '\n')) == [TrimBlank(s[..n])] + (if n == |s| then [] else TrimEach(Split(s[n + 1..], '\n')))
  {
    SplitNone(s[..n], '\n');
    TrimEachOne(s[..n]);
    if n == |s| {
      assert s[..n] == s;
    } else {
      var rest := s[n + 1..];
      CutAt(s, n);
      SplitAppend(s[..n], '\n', rest);
      TrimEachAppend([s[..n]], Split(rest, '\n'));
    }
  }

  /** `^!\s*([A-Z0-9_]+)\s*$` on one line. */
  function CodeLine(line: string): Option<string> {
    if line == "" || line[0] != '!' then None
    else
      var rest := line[1..][Span(line[1..], Spaces())..];
      var n := Span(rest, UpperCodes());
      if n == 0 || Span(rest[n..], Spaces()) != |rest| - n then None else Some(rest[..n])
  }

  function AfterSpaces(s: string): string {
    s[Span(s, Spaces())..]
  }

  // `^\*\s*([a-z]{2,})\s*<\s*([^>]*)\s*>?\s*$` on one line: the language and the text.
  function LangLine(line: string): Option<(string, string)> {
    if line == "" || line[0] != '*' then None else LangSlot(AfterSpaces(line[1..]))
  }

  // The part `([a-z]{2,})\s*<\s*([^>]*)\s*>?\s*$`.
  function LangSlot(s: string): Option<(string, string)> {
    var n := Span(s, Lowers());
    var text := SlotText(AfterSpaces(s[n..]));
    if n < 2 || text.None? then None else Some((s[..n], text.value))
  }

  // The part `<\s*([^>]*)\s*>?\s*$` of a slot line.
  function SlotText(open: string): Option<string> {
    if open == "" || open[0] != '<' then None
    else
      var body := AfterSpaces(open[1..]);
      var m := Span(body, NotAngle());
      var close := Drop(body, m + 1);
      if Span(close, Spaces()) != |close| then None else Some(body[..m])
  }

  /** The text found for a language and a code. */
  type Texts = map<(string, string), string>

  datatype Parse = Parse(code: string, texts: Texts)

  function ParseLine(p: Parse, line: string): Parse {
    match CodeLine(line)
    case Some(code) => p.(code := code)
    case None =>
      if p.code == "" then p
      else
        match LangLine(line)
        case None => p
        case Some(m) => p.(texts := p.texts[(m.0, p.code) := m.1])
  }

  function ParseLines(p: Parse, lines: seq<string>): Parse
    decreases |lines|
  {
    if lines == [] then p else ParseLines(ParseLine(p, lines[0]), lines[1..])
  }

  lemma {:induction false} ParseLinesAppend(p: Parse, a: seq<string>, b: seq<string>)
    ensures ParseLines(p, a + b) == ParseLines(ParseLines(p, a), b)
    decreases |a|
  {
    if a == [] {
      EmptyFirst(b);
    } else {
      ParseLinesAppend(ParseLine(p, a[0]), a[1..], b);
      HeadAndTail(a, b);
    }
  }

  // The first end of a comment in `s`, or -1.
  function FindClose(s: string): (r: int)
    ensures -1 <= r && (r >= 0 ==> r + 2 <= |s|)
  {
    if |s| < 2 then -1
    else if s[0] == '*' && s[1] == '/' then 0
    else
      var r := FindClose(s[1..]);
      if r < 0 then -1 else r + 1
  }

  // A comment whose opening stands just before `after`: its text and what follows it. The opening may have a
  // second star, which is taken when an end still follows it; the text is the shortest up to an end.
  function Comment(after: string): (r: Option<(string, string)>)
    ensures r.Some? ==> |r.value.1| < |after|
  {
    var starred := if HasPrefix(after, "*") then FindClose(after[1..]) else -1;
    var plain := FindClose(after);
    if starred >= 0 then Some((after[1..][..starred], after[1..][starred + 2..]))
    else if plain >= 0 then Some((after[..plain], after[plain + 2..]))
    else None
  }

  // All comments from left to right.
  function FindBlocks(s: string): seq<string>
    decreases |s|
  {
    if |s| < 2 then []
    else if !HasPrefix(s, "/*") then FindBlocks(s[1..])
    else
      match Comment(s[2..])
      case None => []
      case Some(c) => [c.0] + FindBlocks(c.1)
  }

  function ParseBlock(texts: Texts, block: string): Texts {
    ParseLines(Parse("", texts), TrimEach(Split(block, '\n'))).texts
  }

  function ParseBlocks(texts: Texts, blocks: seq<string>): Texts
    decreases |blocks|
  {
    if blocks == [] then texts else ParseBlocks(ParseBlock(texts, blocks[0]), blocks[1..])
  }

  /** `collectFromFile`, into the texts collected so far. */
  method CollectFromFile(data: string, before: Texts) returns (byLang: Texts)
    ensures byLang == ParseBlocks(before, FindBlocks(data))
  {
    byLang := before;
    var blocks := FindBlocks(data);
    for b := 0 to |blocks|
      invariant ParseBlocks(before, blocks) == ParseBlocks(byLang, blocks[b..])
    {
      assert blocks[b..][1..] == blocks[b + 1..];
      byLang := CollectFromBlock(blocks[b], byLang);
    }
  }

  method CollectFromBlock(block: string, before: Texts) returns (byLang: Texts)
    ensures byLang == ParseBlock(before, block)
  {
    byLang := before;
    var currentCode := "";
    var lines := SplitLines(block);
    for i := 0 to |lines|
      invariant ParseLines(Parse("", before), lines) == ParseLines(Parse(currentCode, byLang), lines[i..])
    {
      assert lines[i..][1..] == lines[i + 1..];
      var code := CodeLine(lines[i]);
      if code.Some? {
        currentCode := code.value;
      } else if currentCode != "" {
        var m := LangLine(lines[i]);
        if m.Some? {
          byLang := byLang[(m.value.0, currentCode) := m.value.1];
        }
      }
    }
  }
}
