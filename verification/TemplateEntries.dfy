/** Reading back, line by line, what the writer wrote for one code, whatever the code looks like. */
module TemplateEntries {
  import opened Seqs
  import opened Results
  import opened Text
  import opened Templates

  /** Codes over capitals, digits and underscores. */
  predicate IsCode(code: string) {
    code != "" && forall i :: 0 <= i < |code| ==> IsUpperCode(code[i])
  }

  // ----- One line -----

  lemma CodeLineReads(code: string)
    requires IsCode(code)
    ensures CodeLine("!" + code) == Some(code)
  {
    assert ("!" + code)[1..] == code;
    assert Span(code, Spaces()) == 0;
    assert code[0..] == code;
    assert code + "" == code;
    SpanAppend(code, "", UpperCodes());
    assert code[|code|..] == "" && code[..|code|] == code;
  }

  /** A slot `*lang<text>` gives the text without its leading white space. */
  lemma LangLineReads(lang: string, text: string)
    requires |lang| >= 2 && forall i :: 0 <= i < |lang| ==> IsLower(lang[i])
    requires '>' !in text
    ensures LangLine("*" + lang + "<" + text + ">") == Some((lang, AfterSpaces(text)))
  {
    var tail := "<" + text + ">";
    assert "*" + lang + "<" + text + ">" == "*" + (lang + tail);
    SlotReads(text);
    SlotLine(lang, tail);
  }

  /** What follows the language decides. */
  lemma SlotLine(lang: string, tail: string)
    requires |lang| >= 2 && forall i :: 0 <= i < |lang| ==> IsLower(lang[i])
    requires tail != "" && tail[0] == '<'
    ensures LangLine("*" + (lang + tail)) == match SlotText(tail) case None => None case Some(t) => Some((lang, t))
  {
    HeadAndTail("*", lang + tail);
    EmptyFirst(lang + tail);
    HeadAndTail(lang, tail);
    NoSpacesFirst(lang + tail);
    NoSpacesFirst(tail);
    SpanAppend(lang, tail, Lowers());
    CutAfter(lang, tail);
  }

  lemma NoSpacesFirst(s: string)
    requires s != "" && !IsWhite(s[0])
    ensures AfterSpaces(s) == s
  {
  }

  lemma CutAfter(a: string, b: string)
    ensures (a + b)[..|a|] == a && (a + b)[|a|..] == b
  {
  }

  lemma SlotReads(text: string)
    requires '>' !in text
    ensures SlotText("<" + text + ">") == Some(AfterSpaces(text))
  {
    var inner := AfterSpaces(text);
    Associates("<", text, ">");
    HeadAndTail("<", text + ">");
    EmptyFirst(text + ">");
    SpaceBeforeAngle(text);
    AppendSlices(text, ">", Span(text, Spaces()), |text|);
    SpanOfAngle(inner);
    SlotBody(inner);
    assert Span("", Spaces()) == 0;
  }

  lemma SlotBody(inner: string)
    ensures (inner + ">")[..|inner|] == inner && Drop(inner + ">", |inner| + 1) == ""
  {
  }

  lemma SpaceBeforeAngle(text: string)
    ensures Span(text + ">", Spaces()) == Span(text, Spaces())
  {
    SpanConcat(text, ">", Spaces());
    assert Span(">", Spaces()) == 0;
  }

  lemma SpanOfAngle(inner: string)
    requires '>' !in inner
    ensures Span(inner + ">", NotAngle()) == |inner|
  {
    assert forall i :: 0 <= i < |inner| ==> inner[i] in inner;
    SpanAppend(inner, ">", NotAngle());
  }

  lemma HintSpan(code: string)
    requires IsCode(code)
    ensures CodeToEn(code)[Span(CodeToEn(code), Spaces())..] == CodeToEn(code) <==> code[0] != '_'
  {
    var en := CodeToEn(code);
    assert IsUpperCode(code[0]);
    assert IsWhite(en[0]) <==> code[0] == '_';
    assert Span(en, Spaces()) > 0 <==> Spaces()(en[0]);
  }

  /** The hint is read back as it was written exactly when the code does not start with an underscore. */
  lemma HintSurvivesIff(code: string)
    requires IsCode(code)
    ensures LangLine(HintLine(code)).Some?
    ensures LangLine(HintLine(code)).value == ("en", CodeToEn(code)) <==> code[0] != '_'
  {
    HintIsPlain(code);
    assert HintLine(code) == "*" + "en" + "<" + CodeToEn(code) + ">";
    LangLineReads("en", CodeToEn(code));
    HintSpan(code);
  }

  lemma HintIsPlain(code: string)
    ensures '>' !in code ==> '>' !in CodeToEn(code)
    ensures '\n' !in code ==> '\n' !in CodeToEn(code)
    ensures IsCode(code) ==> '>' !in code && '\n' !in code && '/' !in code
  {
    var en := CodeToEn(code);
    forall i | 0 <= i < |en| ensures en[i] == '>' ==> code[i] == '>' ensures en[i] == '\n' ==> code[i] == '\n' {}
  }

  predicate Unblank(line: string) {
    line == "" || (!IsBlank(line[0]) && !IsBlank(line[|line| - 1]))
  }

  lemma UnblankIsFixed(line: string)
    requires Unblank(line)
    ensures TrimBlank(line) == line
  {
  }

  // ----- One line after the other -----

  lemma FirstLine(line: string, rest: string)
    requires '\n' !in line
    ensures TrimEach(Split(line + "\n" + rest, '\n')) == [TrimBlank(line)] + TrimEach(Split(rest, '\n'))
  {
    SplitNone(line, '\n');
    assert line + "\n" + rest == line + ['\n'] + rest;
    SplitAppend(line, '\n', rest);
    TrimEachAppend([line], Split(rest, '\n'));
    TrimEachOne(line);
  }

  /** The parser's state after reading `text`. */
  function ReadText(p: Parse, text: string): Parse {
    ParseLines(p, TrimEach(Split(text, '\n')))
  }

  lemma StepLine(p: Parse, line: string, rest: string)
    requires '\n' !in line
    ensures ReadText(p, line + "\n" + rest) == ReadText(ParseLine(p, TrimBlank(line)), rest)
  {
    FirstLine(line, rest);
    var lines := TrimEach(Split(rest, '\n'));
    assert ([TrimBlank(line)] + lines)[1..] == lines;
  }

  lemma FiveLines(p: Parse, a: string, b: string, c: string, d: string, e: string, rest: string,
                  p1: Parse, p2: Parse, p3: Parse, p4: Parse, p5: Parse)
    requires '\n' !in a && '\n' !in b && '\n' !in c && '\n' !in d && '\n' !in e
    requires ParseLine(p, TrimBlank(a)) == p1 && ParseLine(p1, TrimBlank(b)) == p2 && ParseLine(p2, TrimBlank(c)) == p3
    requires ParseLine(p3, TrimBlank(d)) == p4 && ParseLine(p4, TrimBlank(e)) == p5
    ensures ReadText(p, a + "\n" + (b + "\n" + (c + "\n" + (d + "\n" + (e + "\n" + rest))))) == ReadText(p5, rest)
  {
    StepLine(p, a, b + "\n" + (c + "\n" + (d + "\n" + (e + "\n" + rest))));
    StepLine(p1, b, c + "\n" + (d + "\n" + (e + "\n" + rest)));
    StepLine(p2, c, d + "\n" + (e + "\n" + rest));
    StepLine(p3, d, e + "\n" + rest);
    StepLine(p4, e, rest);
  }

  /** Text read in two parts, with a line break between them. */
  lemma ReadOn(p: Parse, a: string, rest: string)
    ensures ReadText(p, a + "\n" + rest) == ReadText(ReadText(p, a), rest)
  {
    assert a + "\n" + rest == a + ['\n'] + rest;
    SplitAppend(a, '\n', rest);
    TrimEachAppend(Split(a, '\n'), Split(rest, '\n'));
    ParseLinesAppend(p, TrimEach(Split(a, '\n')), TrimEach(Split(rest, '\n')));
  }

  /** A line that says nothing to the parser. */
  lemma IdleLine(p: Parse, line: string, rest: string)
    requires '\n' !in line && Unblank(line) && (line == "" || line[0] == '/')
    ensures ReadText(p, line + "\n" + rest) == ReadText(p, rest)
  {
    UnblankIsFixed(line);
    StepLine(p, line, rest);
  }

  // ----- One entry -----

  /** The code that the line of `code` gives, if any. */
  function CodeRead(code: string): Option<string> {
    CodeLine(TrimBlank("!" + code))
  }

  /** The text that the hint of `code` gives, if any. */
  function Hint(code: string): Option<string> {
    SlotText("<" + CodeToEn(code) + ">")
  }

  /** The three texts of an entry that is read under the code `k`. */
  function Given(texts: Texts, k: string, hint: Option<string>): Texts {
    (match hint case None => texts case Some(t) => texts[("en", k) := t])[("zh", k) := ""][("fr", k) := ""]
  }

  /** The parser's state after one entry: its texts go to the code it gives or else to the code before. */
  function EntryRead(p: Parse, code: string): Parse {
    var k := match CodeRead(code) case Some(c) => c case None => p.code;
    if k == "" then p else Parse(k, Given(p.texts, k, Hint(code)))
  }

  function Named(p: Parse, code: string): Parse {
    p.(code := match CodeRead(code) case Some(c) => c case None => p.code)
  }

  function Hinted(p: Parse, code: string): Parse {
    if p.code == "" then p
    else match Hint(code) case None => p case Some(t) => p.(texts := p.texts[("en", p.code) := t])
  }

  function Emptied(p: Parse, lang: string): Parse {
    if p.code == "" then p else p.(texts := p.texts[(lang, p.code) := ""])
  }

  lemma EntryInSteps(p: Parse, code: string)
    ensures Emptied(Emptied(Hinted(Named(p, code), code), "zh"), "fr") == EntryRead(p, code)
  {
  }

  lemma {:induction false} TrimRightKeepsFirst(s: string)
    requires s != "" && !IsBlank(s[0])
    ensures TrimRightBlank(s) != "" && TrimRightBlank(s)[0] == s[0]
  {
    if IsBlank(s[|s| - 1]) { TrimRightKeepsFirst(s[..|s| - 1]); }
  }

  lemma ReadCodeLine(p: Parse, code: string)
    ensures ParseLine(p, TrimBlank("!" + code)) == Named(p, code)
  {
    TrimRightKeepsFirst("!" + code);
    assert TrimLeftBlank("!" + code) == "!" + code;
  }

  lemma ReadHint(p: Parse, code: string)
    ensures ParseLine(p, TrimBlank(HintLine(code))) == Hinted(p, code)
  {
    var line := HintLine(code);
    HintIs(line, "en", code);
    UnblankIsFixed(line);
  }

  lemma HintIs(line: string, en: string, code: string)
    requires en == "en" && line == "*" + en + "<" + CodeToEn(code) + ">"
    ensures Unblank(line) && line != "" && line[0] == '*'
    ensures LangLine(line) == match Hint(code) case None => None case Some(t) => Some((en, t))
  {
    var tail := "<" + CodeToEn(code) + ">";
    assert line == "*" + (en + tail);
    assert line[|line| - 1] == '>';
    assert |en| == 2 && IsLower(en[0]) && IsLower(en[1]);
    SlotLine(en, tail);
  }

  lemma EmptyIs(line: string, lang: string)
    requires |lang| >= 2 && forall i :: 0 <= i < |lang| ==> IsLower(lang[i])
    requires line == "*" + lang + "<>"
    ensures LangLine(line) == Some((lang, "")) && line != "" && line[0] == '*' && line[|line| - 1] == '>'
  {
    assert "*" + lang + "<>" == "*" + lang + "<" + "" + ">";
    LangLineReads(lang, "");
    assert AfterSpaces("") == "";
  }

  lemma HasNoBreak(line: string, lang: string)
    requires forall i :: 0 <= i < |lang| ==> IsLower(lang[i])
    requires line == "*" + lang + "<>"
    ensures '\n' !in line
  {
  }

  lemma ReadEmpty(p: Parse, line: string, lang: string)
    requires |lang| >= 2 && forall i :: 0 <= i < |lang| ==> IsLower(lang[i])
    requires line == "*" + lang + "<>"
    ensures ParseLine(p, TrimBlank(line)) == Emptied(p, lang)
    ensures '\n' !in line
  {
    EmptyIs(line, lang);
    HasNoBreak(line, lang);
    UnblankIsFixed(line);
    ReadSlot(p, line, lang, "");
  }

  lemma ReadSlot(p: Parse, line: string, lang: string, text: string)
    requires line != "" && line[0] == '*' && LangLine(line) == Some((lang, text))
    ensures ParseLine(p, line) == if p.code == "" then p else p.(texts := p.texts[(lang, p.code) := text])
  {
  }

  lemma CodeIsNotEmpty(line: string)
    ensures CodeLine(line).Some? ==> CodeLine(line).value != "" && forall i :: 0 <= i < |CodeLine(line).value| ==> IsUpperCode(CodeLine(line).value[i])
  {
  }

  lemma EntryReads(p: Parse, code: string, zh: string, fr: string, rest: string)
    requires '\n' !in code && zh == "zh" && fr == "fr"
    ensures ReadText(p, "!" + code + "\n" + (HintLine(code) + "\n" + ("*" + zh + "<>" + "\n" + ("*" + fr + "<>" + "\n" + ("" + "\n" + rest)))))
            == ReadText(EntryRead(p, code), rest)
  {
    var p1 := Named(p, code);
    var p2 := Hinted(p1, code);
    var p3 := Emptied(p2, zh);
    var p4 := Emptied(p3, fr);
    assert |zh| == 2 && IsLower(zh[0]) && IsLower(zh[1]) && |fr| == 2 && IsLower(fr[0]) && IsLower(fr[1]);
    HintIsPlain(code);
    EntryInSteps(p, code);
    ReadCodeLine(p, code);
    ReadHint(p1, code);
    ReadEmpty(p2, "*" + zh + "<>", zh);
    ReadEmpty(p3, "*" + fr + "<>", fr);
    FiveLines(p, "!" + code, HintLine(code), "*" + zh + "<>", "*" + fr + "<>", "", rest, p1, p2, p3, p4, p4);
  }

  lemma EntryIsLines(code: string, rest: string)
    ensures EntryText(code) + rest ==
      "!" + code + "\n" + (HintLine(code) + "\n" + ("*" + "zh" + "<>" + "\n" + ("*" + "fr" + "<>" + "\n" + ("" + "\n" + rest))))
  {
    var tail := "\n*zh<>\n*fr<>\n\n";
    assert tail == "\n" + ("*" + "zh" + "<>" + "\n" + ("*" + "fr" + "<>" + "\n" + ("" + "\n")));
    var head := "!" + code + "\n" + HintLine(code);
    assert EntryText(code) + rest == head + (tail + rest);
  }

  // ----- All entries -----

  function AllRead(p: Parse, codes: seq<string>): Parse
    decreases |codes|
  {
    if codes == [] then p else AllRead(EntryRead(p, codes[0]), codes[1..])
  }

  ghost predicate OneLineCodes(codes: seq<string>) {
    forall c :: c in codes ==> '\n' !in c
  }

  lemma {:induction false} EntriesRead(p: Parse, codes: seq<string>)
    requires OneLineCodes(codes)
    ensures ReadText(p, Entries(codes)) == AllRead(p, codes)
    decreases |codes|
  {
    if codes == [] {
      UnblankIsFixed("");
      TrimEachOne("");
      assert [""][1..] == [];
    } else {
      assert codes[0] in codes;
      EntryIsLines(codes[0], Entries(codes[1..]));
      EntryReads(p, codes[0], "zh", "fr", Entries(codes[1..]));
      EntriesRead(EntryRead(p, codes[0]), codes[1..]);
    }
  }

  // ----- Which codes are read as themselves -----

  /** A code is read back as itself exactly if it is over the alphabet. */
  lemma CodeSurvivesIff(code: string)
    ensures CodeRead(code) == Some(code) <==> IsCode(code)
  {
    CodeIsNotEmpty(TrimBlank("!" + code));
    if IsCode(code) {
      assert IsUpperCode(code[|code| - 1]);
      var line := "!" + code;
      assert line[|line| - 1] == code[|code| - 1];
      UnblankIsFixed(line);
      CodeLineReads(code);
    }
  }

  /** The texts after the entry of a code over the alphabet has been read. */
  function Added(texts: Texts, code: string): Texts {
    Given(texts, code, Some(AfterSpaces(CodeToEn(code))))
  }

  function AllAdded(texts: Texts, codes: seq<string>): Texts
    decreases |codes|
  {
    if codes == [] then texts else AllAdded(Added(texts, codes[0]), codes[1..])
  }

  ghost predicate GoodCodes(codes: seq<string>) {
    forall c :: c in codes ==> IsCode(c)
  }

  lemma {:induction false} GoodCodesAreAdded(p: Parse, codes: seq<string>)
    requires GoodCodes(codes)
    ensures AllRead(p, codes).texts == AllAdded(p.texts, codes)
    decreases |codes|
  {
    if codes != [] {
      var code := codes[0];
      assert code in codes;
      CodeSurvivesIff(code);
      HintIsPlain(code);
      SlotReads(CodeToEn(code));
      GoodCodesAreAdded(EntryRead(p, code), codes[1..]);
    }
  }

  /** What has been added, and that nothing else has. */
  lemma {:induction false} AddedExactly(texts: Texts, codes: seq<string>, lang: string, code: string)
    ensures var after := AllAdded(texts, codes);
      if code in codes && lang in ["en", "zh", "fr"]
      then (lang, code) in after && after[(lang, code)] == if lang == "en" then AfterSpaces(CodeToEn(code)) else ""
      else ((lang, code) in after <==> (lang, code) in texts) &&
           ((lang, code) in texts ==> after[(lang, code)] == texts[(lang, code)])
    decreases |codes|
  {
    if codes != [] {
      AddedExactly(Added(texts, codes[0]), codes[1..], lang, code);
      assert codes == [codes[0]] + codes[1..];
      assert "en" != "zh" && "en" != "fr" && "zh" != "fr" by { assert "en"[0] == 'e' && "zh"[0] == 'z' && "fr"[0] == 'f'; }
    }
  }

  /** A code that is not read is given no texts: they replace those of the code before it. */
  lemma StrayTakesOver(texts: Texts, code: string, stray: string)
    requires IsCode(code) && CodeRead(stray).None? && '>' !in stray
    ensures AllRead(Parse("", texts), [code, stray])
            == Parse(code, Given(Added(texts, code), code, Some(AfterSpaces(CodeToEn(stray)))))
  {
    var p := Parse("", texts);
    CodeSurvivesIff(code);
    HintIsPlain(code);
    HintIsPlain(stray);
    SlotReads(CodeToEn(code));
    SlotReads(CodeToEn(stray));
    assert [code, stray][1..] == [stray] && [stray][1..] == [];
    assert AllRead(p, [code, stray]) == AllRead(EntryRead(p, code), [stray]);
  }
}
