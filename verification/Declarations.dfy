/** What the template writer finds in a file of error codes, and the hint it makes of a code. */
module Declarations {
  import opened Seqs
  import opened Results
  import opened Text
  import opened Templates

  /** `Code<Name> = "<code>"`, with white space around the equals sign. */
  datatype Declaration = Declaration(name: string, gap: string, space: string, code: string)
  {
    predicate Valid() {
      && name != "" && (forall c :: c in name ==> IsWord(c))
      && (forall c :: c in gap + space ==> IsWhite(c))
      && code != "" && '"' !in code
    }

    function Text(): string {
      "Code" + (name + (gap + ("=" + (space + ("\"" + (code + "\""))))))
    }
  }

  lemma TextWith(d: Declaration, rest: string)
    ensures d.Text() + rest == "Code" + (d.name + (d.gap + ("=" + (d.space + ("\"" + (d.code + ("\"" + rest)))))))
  {
    Associates(d.code, "\"", rest);
    Associates("\"", d.code + "\"", rest);
    Associates(d.space, "\"" + (d.code + "\""), rest);
    Associates("=", d.space + ("\"" + (d.code + "\"")), rest);
    Associates(d.gap, "=" + (d.space + ("\"" + (d.code + "\""))), rest);
    Associates(d.name, d.gap + ("=" + (d.space + ("\"" + (d.code + "\"")))), rest);
    Associates("Code", d.name + (d.gap + ("=" + (d.space + ("\"" + (d.code + "\""))))), rest);
  }

  lemma AllOf(s: string, inClass: char -> bool)
    requires forall c :: c in s ==> inClass(c)
    ensures forall i :: 0 <= i < |s| ==> inClass(s[i])
  {
  }

  /** A class's prefix ends where `b` begins. */
  lemma SpanEnds(a: string, b: string, inClass: char -> bool)
    requires forall c :: c in a ==> inClass(c)
    requires b != "" ==> !inClass(b[0])
    ensures Span(a + b, inClass) == |a| && (a + b)[|a|..] == b && (a + b)[..|a|] == a
  {
    AllOf(a, inClass);
    SpanAppend(a, b, inClass);
  }

  lemma QuotedMatches(code: string, rest: string)
    requires code != "" && '"' !in code
    ensures MatchQuoted("\"" + (code + ("\"" + rest))) == Some((code, rest))
  {
    var e := "\"" + rest;
    assert ("\"" + (code + e))[1..] == code + e;
    SpanEnds(code, e, NotQuote());
    assert e[1..] == rest;
    assert (code + e)[|code| + 1..] == (code + e)[|code|..][1..];
  }

  lemma QuotedIs(s: string, code: string, rest: string)
    requires MatchQuoted(s) == Some((code, rest))
    ensures code != "" && '"' !in code && s == "\"" + (code + ("\"" + rest))
  {
    var t := s[1..];
    assert s == "\"" + t;
    CutAt(t, Span(t, NotQuote()));
    Associates(code, "\"", rest);
  }

  lemma EqualsMatches(gap: string, space: string, rest: string)
    requires forall c :: c in gap + space ==> IsWhite(c)
    requires rest != "" && !IsWhite(rest[0])
    ensures MatchEquals(gap + ("=" + (space + rest))) == Some(rest)
  {
    SpanEnds(gap, "=" + (space + rest), Spaces());
    assert ("=" + (space + rest))[1..] == space + rest;
    SpanEnds(space, rest, Spaces());
  }

  lemma EqualsIs(s: string, rest: string) returns (gap: string, space: string)
    requires MatchEquals(s) == Some(rest)
    ensures (forall c :: c in gap + space ==> IsWhite(c)) && s == gap + ("=" + (space + rest))
  {
    var i := Span(s, Spaces());
    var t := s[i..][1..];
    gap, space := s[..i], t[..Span(t, Spaces())];
    assert t == space + rest;
    assert s[i..] == "=" + t;
  }

  lemma NameMatches(name: string, tail: string)
    requires name != "" && (forall c :: c in name ==> IsWord(c)) && tail != "" && !IsWord(tail[0])
    ensures MatchCode("Code" + (name + tail)) == MatchValue(tail)
  {
    SpanEnds(name, tail, Words());
    assert ("Code" + (name + tail))[4..] == name + tail;
  }

  lemma NameIs(s: string) returns (name: string, tail: string)
    requires MatchCode(s).Some?
    ensures name != "" && (forall c :: c in name ==> IsWord(c)) && s == "Code" + (name + tail)
    ensures MatchCode(s) == MatchValue(tail)
  {
    var n := Span(s[4..], Words());
    name, tail := s[4..][..n], s[4..][n..];
    WordsAre(s[4..]);
    HeadIs(s, "Code");
  }

  lemma WordsAre(t: string)
    ensures var n := Span(t, Words()); t == t[..n] + t[n..] && forall c :: c in t[..n] ==> IsWord(c)
  {
  }

  lemma HeadIs(s: string, head: string)
    requires HasPrefix(s, head)
    ensures s == head + s[|head|..]
  {
  }

  lemma ValueMatches(d: Declaration, rest: string)
    requires d.Valid()
    ensures var tail := d.gap + ("=" + (d.space + ("\"" + (d.code + ("\"" + rest)))));
      MatchValue(tail) == Some((d.code, rest)) && tail != "" && !IsWord(tail[0])
  {
    var quoted := "\"" + (d.code + ("\"" + rest));
    QuotedMatches(d.code, rest);
    EqualsMatches(d.gap, d.space, quoted);
    GapIsNoWord(d, d.space + quoted);
  }

  lemma GapIsNoWord(d: Declaration, rest: string)
    requires d.Valid()
    ensures d.gap + ("=" + rest) != "" && !IsWord((d.gap + ("=" + rest))[0])
  {
    if d.gap == "" { EmptyFirst("=" + rest); } else { assert d.gap[0] in d.gap + d.space; }
  }

  /** A declaration matches, whatever follows it, and gives its code. */
  lemma DeclarationMatches(d: Declaration, rest: string)
    requires d.Valid()
    ensures MatchCode(d.Text() + rest) == Some((d.code, rest))
  {
    TextWith(d, rest);
    ValueMatches(d, rest);
    NameMatches(d.name, d.gap + ("=" + (d.space + ("\"" + (d.code + ("\"" + rest))))));
  }

  /** Nothing else matches. */
  lemma MatchIsDeclaration(s: string, code: string, rest: string) returns (d: Declaration)
    requires MatchCode(s) == Some((code, rest))
    ensures d.Valid() && d.code == code && s == d.Text() + rest
  {
    var name, tail := NameIs(s);
    var quoted := MatchEquals(tail).value;
    var gap, space := EqualsIs(tail, quoted);
    QuotedIs(quoted, code, rest);
    d := Declaration(name, gap, space, code);
    TextWith(d, rest);
  }

  /** The start of a text matches exactly if it is a declaration. */
  lemma MatchesIff(s: string, code: string, rest: string)
    ensures MatchCode(s) == Some((code, rest)) <==> exists d: Declaration :: d.Valid() && d.code == code && s == d.Text() + rest
  {
    if MatchCode(s) == Some((code, rest)) {
      var d := MatchIsDeclaration(s, code, rest);
    }
    forall d: Declaration | d.Valid() && d.code == code && s == d.Text() + rest ensures MatchCode(s) == Some((code, rest)) {
      DeclarationMatches(d, rest);
    }
  }

  /** `Code` stands nowhere in it. */
  ghost predicate Free(s: string) {
    forall i :: 0 <= i <= |s| ==> !HasPrefix(s[i..], "Code")
  }

  lemma {:induction false} FreeHasNone(s: string)
    requires Free(s)
    ensures FindCodes(s) == []
  {
    if s != "" {
      assert s[0..] == s;
      FreeTail(s);
      FreeHasNone(s[1..]);
    }
  }

  lemma FreeTail(s: string)
    requires Free(s) && s != ""
    ensures Free(s[1..])
  {
    forall i | 0 <= i <= |s| - 1 ensures !HasPrefix(s[1..][i..], "Code") { assert s[1..][i..] == s[i + 1..]; }
  }

  lemma FreeStarts(a: string, b: string)
    requires a != "" && Free(a) && HasPrefix(b, "Code")
    ensures !HasPrefix(a + b, "Code")
  {
    assert a[0..] == a;
    assert |a| < 4 ==> (a + b)[|a|] == 'C' != "Code"[|a|];
  }

  /** Text in front of a declaration is passed over. */
  lemma {:induction false} FreeIsPassed(a: string, b: string)
    requires Free(a) && HasPrefix(b, "Code")
    ensures FindCodes(a + b) == FindCodes(b)
  {
    if a == "" {
      EmptyFirst(b);
    } else {
      FreeStarts(a, b);
      HeadAndTail(a, b);
      FreeTail(a);
      FreeIsPassed(a[1..], b);
    }
  }

  /** A file as a list of declarations, each with the text in front of it. */
  function FileOf(decls: seq<(string, Declaration)>, after: string): string {
    if decls == [] then after else decls[0].0 + (decls[0].1.Text() + FileOf(decls[1..], after))
  }

  function CodesOf(decls: seq<(string, Declaration)>): seq<string> {
    if decls == [] then [] else [decls[0].1.code] + CodesOf(decls[1..])
  }

  /** The codes found in a file are those declared, all of them, in order and with repetition. */
  lemma {:induction false} DeclaredAreFound(decls: seq<(string, Declaration)>, after: string)
    requires Free(after) && forall i :: 0 <= i < |decls| ==> Free(decls[i].0) && decls[i].1.Valid()
    ensures FindCodes(FileOf(decls, after)) == CodesOf(decls)
  {
    if decls == [] {
      FreeHasNone(after);
    } else {
      var d, rest := decls[0].1, FileOf(decls[1..], after);
      DeclaredAreFound(decls[1..], after);
      DeclarationMatches(d, rest);
      assert HasPrefix(d.Text() + rest, "Code");
      FreeIsPassed(decls[0].0, d.Text() + rest);
    }
  }

  // ----- The hint -----

  /** A hint read backwards. */
  function CodeFrom(hint: string): string {
    seq(|hint|, i requires 0 <= i < |hint| =>
      if hint[i] == ' ' then '_' else if IsLower(hint[i]) then (hint[i] as int - 'a' as int + 'A' as int) as char else hint[i])
  }

  /** The hint of a code over the alphabet is words in small letters and digits with spaces between them, and tells
      the code. */
  lemma HintTellsCode(code: string)
    requires forall c :: c in code ==> IsUpperCode(c)
    ensures CodeFrom(CodeToEn(code)) == code
    ensures forall c :: c in CodeToEn(code) ==> c == ' ' || IsLower(c) || '0' <= c <= '9'
  {
    forall i | 0 <= i < |code| ensures CodeFrom(CodeToEn(code))[i] == code[i] { assert code[i] in code; }
    forall c | c in CodeToEn(code) ensures c == ' ' || IsLower(c) || '0' <= c <= '9' {
      var i :| 0 <= i < |code| && CodeToEn(code)[i] == c;
      assert code[i] in code;
    }
  }
}
