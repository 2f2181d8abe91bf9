/** The lines that the template parser reads, and no others: what its two regular expressions mean. */
module LineForms {
  import opened Results
  import opened Templates
  import opened Declarations

  predicate White(s: string) {
    forall c :: c in s ==> IsWhite(c)
  }

  lemma AfterWhite(a: string, b: string)
    requires White(a) && (b != "" ==> !IsWhite(b[0]))
    ensures AfterSpaces(a + b) == b && Span(a + b, Spaces()) == |a|
  {
    SpanEnds(a, b, Spaces());
  }

  lemma SplitAtWhite(s: string) returns (a: string)
    ensures White(a) && s == a + AfterSpaces(s)
    ensures AfterSpaces(s) != "" ==> !IsWhite(AfterSpaces(s)[0])
  {
    a := s[..Span(s, Spaces())];
    assert forall i :: 0 <= i < |a| ==> Spaces()(s[i]);
  }

  lemma WhiteIff(s: string)
    ensures White(s) <==> Span(s, Spaces()) == |s|
  {
    if White(s) {
      AfterWhite(s, "");
      assert s + "" == s;
    } else {
      var c :| c in s && !IsWhite(c);
      var i :| 0 <= i < |s| && s[i] == c;
      assert !Spaces()(s[i]);
    }
  }

  // ----- A line with a code -----

  predicate IsCodeText(code: string) {
    code != "" && forall c :: c in code ==> IsUpperCode(c)
  }

  ghost predicate CodeLineForm(line: string, a: string, code: string, b: string) {
    White(a) && White(b) && IsCodeText(code) && line == "!" + (a + (code + b))
  }

  /** An exclamation mark and a code over the alphabet, with white space around it. */
  lemma CodeLineIff(line: string, code: string)
    ensures CodeLine(line) == Some(code) <==> exists a, b :: CodeLineForm(line, a, code, b)
  {
    if CodeLine(line) == Some(code) { var _, _ := CodeHasForm(line, code); }
    forall a, b | CodeLineForm(line, a, code, b) ensures CodeLine(line) == Some(code) { CodeIsRead(line, a, code, b); }
  }

  lemma CodeHasForm(line: string, code: string) returns (a: string, b: string)
    requires CodeLine(line) == Some(code)
    ensures CodeLineForm(line, a, code, b)
  {
    a := SplitAtWhite(line[1..]);
    var rest := AfterSpaces(line[1..]);
    b := rest[|code|..];
    CapitalsEnd(rest);
    WhiteIff(b);
    HeadIs(line, "!");
  }

  lemma CapitalsEnd(s: string)
    ensures var n := Span(s, UpperCodes()); s == s[..n] + s[n..] && forall c :: c in s[..n] ==> IsUpperCode(c)
  {
    assert forall i :: 0 <= i < Span(s, UpperCodes()) ==> UpperCodes()(s[i]);
  }

  lemma CodeIsRead(line: string, a: string, code: string, b: string)
    requires CodeLineForm(line, a, code, b)
    ensures CodeLine(line) == Some(code)
  {
    assert line[1..] == a + (code + b);
    assert code[0] in code && (b != "" ==> b[0] in b);
    AfterWhite(a, code + b);
    SpanEnds(code, b, UpperCodes());
    WhiteIff(b);
  }

  // ----- A line with a text -----

  /** What may stand behind a text: nothing, or an angle bracket and white space. */
  predicate Close(s: string) {
    s == "" || (s[0] == '>' && White(s[1..]))
  }

  ghost predicate SlotForm(open: string, c: string, text: string, close: string) {
    && White(c) && '>' !in text && (text != "" ==> !IsWhite(text[0])) && Close(close)
    && open == "<" + (c + (text + close))
  }

  lemma SlotIff(open: string, text: string)
    ensures SlotText(open) == Some(text) <==> exists c, close :: SlotForm(open, c, text, close)
  {
    if SlotText(open) == Some(text) { var _, _ := SlotHasForm(open, text); }
    forall c, close | SlotForm(open, c, text, close) ensures SlotText(open) == Some(text) { SlotIsRead(open, c, text, close); }
  }

  lemma TextEnds(body: string)
    ensures var m := Span(body, NotAngle());
      && '>' !in body[..m] && body == body[..m] + body[m..]
      && (body[m..] != "" ==> body[m..][0] == '>' && body[m..][1..] == Drop(body, m + 1))
  {
    assert forall i :: 0 <= i < Span(body, NotAngle()) ==> NotAngle()(body[i]);
  }

  lemma SlotHasForm(open: string, text: string) returns (c: string, close: string)
    requires SlotText(open) == Some(text)
    ensures SlotForm(open, c, text, close)
  {
    c := SplitAtWhite(open[1..]);
    var body := AfterSpaces(open[1..]);
    close := body[|text|..];
    TextEnds(body);
    if close != "" { WhiteIff(Drop(body, |text| + 1)); }
    HeadIs(open, "<");
  }

  lemma SlotIsRead(open: string, c: string, text: string, close: string)
    requires SlotForm(open, c, text, close)
    ensures SlotText(open) == Some(text)
  {
    var body := text + close;
    assert open[1..] == c + body;
    AfterWhite(c, body);
    SpanEnds(text, close, NotAngle());
    WhiteIff("");
    if close != "" {
      assert Drop(body, |text| + 1) == close[1..];
      WhiteIff(close[1..]);
    }
  }

  predicate IsLang(lang: string) {
    |lang| >= 2 && forall c :: c in lang ==> IsLower(c)
  }

  ghost predicate LangLineForm(line: string, a: string, lang: string, b: string, open: string, text: string) {
    White(a) && White(b) && IsLang(lang) && SlotText(open) == Some(text) && line == "*" + (a + (lang + (b + open)))
  }

  /** A star, a language of two or more small letters, and a slot that holds the text, with white space around
      the language. */
  lemma LangLineIff(line: string, lang: string, text: string)
    ensures LangLine(line) == Some((lang, text)) <==> exists a, b, open :: LangLineForm(line, a, lang, b, open, text)
  {
    if LangLine(line) == Some((lang, text)) { var _, _, _ := LangHasForm(line, lang, text); }
    forall a, b, open | LangLineForm(line, a, lang, b, open, text) ensures LangLine(line) == Some((lang, text)) {
      LangIsRead(line, a, lang, b, open, text);
    }
  }

  lemma LettersEnd(s: string)
    ensures var n := Span(s, Lowers()); s == s[..n] + s[n..] && forall c :: c in s[..n] ==> IsLower(c)
  {
    assert forall i :: 0 <= i < Span(s, Lowers()) ==> Lowers()(s[i]);
  }

  lemma LangHasForm(line: string, lang: string, text: string) returns (a: string, b: string, open: string)
    requires LangLine(line) == Some((lang, text))
    ensures LangLineForm(line, a, lang, b, open, text)
  {
    a := SplitAtWhite(line[1..]);
    var rest := AfterSpaces(line[1..]);
    LettersEnd(rest);
    b := SplitAtWhite(rest[|lang|..]);
    open := AfterSpaces(rest[|lang|..]);
    HeadIs(line, "*");
  }

  lemma LangSlotReads(lang: string, b: string, open: string)
    requires IsLang(lang) && White(b) && open != "" && open[0] == '<'
    ensures LangSlot(lang + (b + open)) == match SlotText(open) case None => None case Some(t) => Some((lang, t))
  {
    assert (b + open)[0] == if b == "" then '<' else b[0];
    assert b != "" ==> b[0] in b;
    SpanEnds(lang, b + open, Lowers());
    AfterWhite(b, open);
  }

  lemma LangIsRead(line: string, a: string, lang: string, b: string, open: string, text: string)
    requires LangLineForm(line, a, lang, b, open, text)
    ensures LangLine(line) == Some((lang, text))
  {
    var rest := lang + (b + open);
    LangSlotReads(lang, b, open);
    assert line[1..] == a + rest && rest[0] == lang[0] && lang[0] in lang;
    AfterWhite(a, rest);
  }
}
