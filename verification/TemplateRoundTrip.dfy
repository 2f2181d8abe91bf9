/** The parser reads back what the writer wrote, and the writer never writes twice. */
module TemplateRoundTrip {
  import opened Seqs
  import opened Text
  import opened Templates
  import opened TemplateEntries

  /** Codes that leave the comment whole: no line break, and no end of a comment. */
  ghost predicate PlainCodes(codes: seq<string>) {
    forall c :: c in codes ==> '\n' !in c && FindClose(c) < 0
  }

  // ----- Where comments end -----

  lemma {:induction false} CloseSkips(a: string, b: string)
    requires FindClose(a) < 0 && b != "" && (b[0] != '/' || a == "" || a[|a| - 1] != '*')
    ensures FindClose(a + b) == if FindClose(b) < 0 then -1 else |a| + FindClose(b)
  {
    if a == "" {
      EmptyFirst(b);
    } else {
      HeadAndTail(a, b);
      CloseSkips(a[1..], b);
      assert (a + b)[1] == if |a| > 1 then a[1] else b[0];
    }
  }

  lemma CloseAt(a: string, rest: string)
    requires FindClose(a) < 0
    ensures FindClose(a + ("*/" + rest)) == |a|
  {
    assert ("*/" + rest)[0] == '*' && ("*/" + rest)[1] == '/';
    CloseSkips(a, "*/" + rest);
  }

  lemma {:induction false} CloseStays(a: string, b: string)
    requires FindClose(a) >= 0
    ensures FindClose(a + b) == FindClose(a)
    ensures (a + b)[..FindClose(a)] == a[..FindClose(a)]
    ensures (a + b)[FindClose(a) + 2..] == a[FindClose(a) + 2..] + b
  {
    AppendSlices(a, b, FindClose(a), FindClose(a));
    AppendSlices(a, b, FindClose(a) + 2, FindClose(a) + 2);
    if !(a[0] == '*' && a[1] == '/') {
      CloseStays(a[1..], b);
      HeadAndTail(a, b);
    }
  }

  lemma {:induction false} NoSlashNoClose(s: string)
    requires '/' !in s
    ensures FindClose(s) < 0
  {
    if |s| >= 2 { NoSlashNoClose(s[1..]); }
  }

  lemma {:induction false} HintHasNoClose(code: string)
    requires FindClose(code) < 0
    ensures FindClose(CodeToEn(code)) < 0
  {
    if |code| >= 2 {
      assert CodeToEn(code)[1..] == CodeToEn(code[1..]);
      HintHasNoClose(code[1..]);
    }
  }

  lemma EntryHasNoClose(code: string, rest: string)
    requires FindClose(code) < 0 && FindClose(rest) < 0 && (rest == "" || rest[0] == '!')
    ensures FindClose(EntryText(code) + rest) < 0
  {
    var tail := "\n*zh<>\n*fr<>\n\n";
    assert |tail| == 14 && '/' !in tail;
    EntryParts(code, tail, rest);
    NoSlashNoClose(tail);
    HintHasNoClose(code);
    NoSlashNoClose("\n*en<");
    var l1 := tail + rest;
    if rest == "" { assert tail + rest == tail; } else { CloseSkips(tail, rest); }
    assert l1[0] == '\n';
    var l2 := ">" + l1;
    CloseSkips(">", l1);
    CloseSkips(CodeToEn(code), l2);
    var l3 := CodeToEn(code) + l2;
    CloseSkips("\n*en<", l3);
    var l4 := "\n*en<" + l3;
    assert l4[0] == '\n';
    CloseSkips(code, l4);
    CloseSkips("!", code + l4);
  }

  lemma EntryParts(code: string, tail: string, rest: string)
    requires tail == "\n*zh<>\n*fr<>\n\n"
    ensures EntryText(code) + rest == "!" + (code + ("\n*en<" + (CodeToEn(code) + (">" + (tail + rest)))))
  {
    assert "\n" + "*en<" == "\n*en<";
    assert EntryText(code) == "!" + code + "\n" + ("*en<" + CodeToEn(code) + ">") + tail;
  }

  lemma {:induction false} EntriesHaveNoClose(codes: seq<string>)
    requires PlainCodes(codes)
    ensures FindClose(Entries(codes)) < 0 && (Entries(codes) == "" || Entries(codes)[0] == '!')
  {
    if codes != [] {
      assert codes[0] in codes;
      EntriesHaveNoClose(codes[1..]);
      EntryHasNoClose(codes[0], Entries(codes[1..]));
      assert EntryText(codes[0])[0] == '!';
    }
  }

  // ----- The comments of a file -----

  /** What follows the opening of a comment, a second star included in the opening. */
  function Inside(s: string): string
    requires |s| >= 2
  {
    if HasPrefix(s[2..], "*") then s[3..] else s[2..]
  }

  lemma BlockAtHead(s: string)
    requires |s| >= 2 && HasPrefix(s, "/*") && FindClose(Inside(s)) >= 0
    ensures FindBlocks(s) == [Inside(s)[..FindClose(Inside(s))]] + FindBlocks(Inside(s)[FindClose(Inside(s)) + 2..])
  {
    if HasPrefix(s[2..], "*") { assert s[2..][1..] == s[3..]; }
  }

  /** The comments of `s` once a line break and more text follow it: a comment that `s` opens and does not
      close runs on to the end. The second star of an opening is then always read as part of it. */
  function Seen(s: string): seq<string>
    decreases |s|
  {
    if |s| < 2 then []
    else if !HasPrefix(s, "/*") then Seen(s[1..])
    else
      var text := Inside(s);
      var k := FindClose(text);
      if k >= 0 then [text[..k]] + Seen(text[k + 2..]) else [text]
  }

  /** Every comment that `s` opens is closed in `s`. The text `/` `**` `/` counts as closed only if another
      end follows. */
  predicate Closed(s: string)
    decreases |s|
  {
    if |s| < 2 then true
    else if !HasPrefix(s, "/*") then Closed(s[1..])
    else
      var text := Inside(s);
      FindClose(text) >= 0 && Closed(text[FindClose(text) + 2..])
  }

  /** What is to be seen in `s` is what the parser finds in it exactly when `s` closes its comments. */
  lemma {:induction false} SeenIsFoundIff(s: string)
    ensures Seen(s) == FindBlocks(s) <==> Closed(s)
    decreases |s|
  {
    if |s| >= 2 {
      if !HasPrefix(s, "/*") {
        SeenIsFoundIff(s[1..]);
      } else if FindClose(Inside(s)) >= 0 {
        var text, k := Inside(s), FindClose(Inside(s));
        BlockAtHead(s);
        SeenIsFoundIff(text[k + 2..]);
        SameTail([text[..k]], Seen(text[k + 2..]), FindBlocks(text[k + 2..]));
      } else {
        OpenIsSeen(s);
      }
    }
  }

  /** An open comment is seen, although the parser alone finds nothing there, or nothing but the empty comment
      whose end is the second star's. */
  lemma OpenIsSeen(s: string)
    requires |s| >= 2 && HasPrefix(s, "/*") && FindClose(Inside(s)) < 0
    ensures Seen(s) == [Inside(s)]
    ensures FindBlocks(s) == if HasPrefix(s[2..], "*/") then [""] else []
    ensures Seen(s) != FindBlocks(s)
  {
    var after := s[2..];
    if HasPrefix(after, "*") {
      assert after[0] == '*' && after[1..] == Inside(s);
      assert HasPrefix(after, "*/") <==> Inside(s) != "" && Inside(s)[0] == '/' by {
        assert |after| >= 2 ==> after[..2] == [after[0], after[1]];
      }
      if HasPrefix(after, "*/") {
        NothingUnclosed(after[1..]);
        assert after[2..] == after[1..][1..];
      }
    }
  }

  lemma {:induction false} NothingUnclosed(s: string)
    requires FindClose(s) < 0
    ensures FindBlocks(s) == [] && (s != "" ==> FindBlocks(s[1..]) == [])
    decreases |s|
  {
    if |s| >= 2 {
      NothingUnclosed(s[1..]);
      assert s[2..] == s[1..][1..] && FindClose(s[2..]) < 0;
      if HasPrefix(s[2..], "*") { assert FindClose(s[2..][1..]) < 0; }
    }
  }

  // ----- The block behind a text -----

  /** What comes before the entries in the appended block. */
  function Opening(): string {
    "\n\n/*\n"
  }

  function BlockTail(codes: seq<string>): string {
    Opening() + (Entries(codes) + ("*/" + "\n"))
  }

  /** Text that runs into the block ends where the block ends. */
  lemma BlockCloses(a: string, codes: seq<string>)
    requires FindClose(a) < 0 && PlainCodes(codes)
    ensures FindClose(a + BlockTail(codes)) == |a + Opening() + Entries(codes)|
  {
    var rest := Entries(codes) + ("*/" + "\n");
    EntriesHaveNoClose(codes);
    CloseAt(Entries(codes), "\n");
    assert rest[0] != '/';
    NoCloseInOpening(rest);
    CloseSkips(a, Opening() + rest);
  }

  lemma NoCloseInOpening(rest: string)
    requires rest != "" && rest[0] != '/'
    ensures FindClose(Opening() + rest) == if FindClose(rest) < 0 then -1 else |Opening()| + FindClose(rest)
    ensures Opening() + rest != "" && (Opening() + rest)[0] == '\n'
  {
    var o := Opening();
    assert o[1..] == "\n/*\n" && o[1..][1..] == "/*\n" && o[1..][1..][1..] == "*\n";
    assert o[1..][1..][1..][1..] == "\n" && o[1..][1..][1..][1..][1..] == "";
    CloseSkips(o, rest);
  }

  /** The parser's state when it comes to the entries of a block behind `s`: afresh, or within a comment that `s`
      leaves open. */
  function Before(s: string, texts: Texts): Parse
    decreases |s|
  {
    if |s| < 2 then Parse("", texts)
    else if !HasPrefix(s, "/*") then Before(s[1..], texts)
    else
      var text := Inside(s);
      var k := FindClose(text);
      if k >= 0 then Before(text[k + 2..], ParseBlock(texts, text[..k])) else ReadText(Parse("", texts), text)
  }

  /** Its texts are those of what is to be seen in `s`, and it starts afresh if `s` closes its comments. */
  lemma {:induction false} BeforeIsSeen(s: string, texts: Texts)
    ensures Before(s, texts).texts == ParseBlocks(texts, Seen(s))
    ensures Closed(s) ==> Before(s, texts).code == ""
    decreases |s|
  {
    if |s| >= 2 {
      if !HasPrefix(s, "/*") {
        BeforeIsSeen(s[1..], texts);
      } else {
        var text, k := Inside(s), FindClose(Inside(s));
        if k >= 0 {
          BeforeIsSeen(text[k + 2..], ParseBlock(texts, text[..k]));
          FirstBlock(texts, text[..k], Seen(text[k + 2..]));
        } else {
          OneBlock(texts, text);
        }
      }
    }
  }

  /** Reading what runs into the block reads its own lines first and then the entries. */
  lemma SwallowedReads(p: Parse, a: string, codes: seq<string>)
    requires PlainCodes(codes)
    ensures ReadText(p, a + Opening() + Entries(codes)) == AllRead(ReadText(p, a), codes)
  {
    var q, entries := ReadText(p, a), Entries(codes);
    OpeningLines(a, entries);
    ReadOn(p, a, "" + "\n" + ("/*" + "\n" + entries));
    IdleLine(q, "", "/*" + "\n" + entries);
    IdleLine(q, "/*", entries);
    EntriesRead(q, codes);
  }

  lemma OpeningLines(a: string, entries: string)
    ensures a + Opening() + entries == a + "\n" + ("" + "\n" + ("/*" + "\n" + entries))
  {
    assert Opening() == "\n" + ("" + "\n" + ("/*" + "\n"));
  }

  lemma NoCommentHere(s: string, tail: string)
    requires s != "" && !HasPrefix(s, "/*") && tail != "" && tail[0] == '\n'
    ensures FindBlocks(s + tail) == FindBlocks(s[1..] + tail)
  {
    HeadAndTail(s, tail);
    assert (s + tail)[..2][1] == (s + tail)[1];
    if |s| >= 2 { AppendSlices(s, tail, 2, 2); }
  }

  /** More text behind `s` goes into what its first comment may hold. */
  lemma InsideGoesOn(s: string, tail: string)
    requires |s| >= 2 && HasPrefix(s, "/*") && tail != "" && tail[0] == '\n'
    ensures HasPrefix(s + tail, "/*") && Inside(s + tail) == Inside(s) + tail
  {
    AppendSlices(s, tail, 2, 2);
    var after := s[2..];
    if after == "" {
      EmptyFirst(tail);
      assert tail[..1] == [tail[0]];
    } else {
      AppendSlices(after, tail, 1, 1);
      AppendSlices(s, tail, 3, 3);
    }
  }

  /** Reading any text with the block behind it. */
  lemma {:induction false} TextThenBlock(s: string, texts: Texts, codes: seq<string>)
    requires PlainCodes(codes)
    ensures ParseBlocks(texts, FindBlocks(s + BlockTail(codes))) == AllRead(Before(s, texts), codes).texts
    decreases |s|
  {
    var tail := BlockTail(codes);
    if s == "" {
      EmptyFirst(tail);
      BlockAlone(texts, codes);
    } else if |s| == 1 || !HasPrefix(s, "/*") {
      BlockTailStarts(codes);
      NoCommentHere(s, tail);
      TextThenBlock(s[1..], texts, codes);
    } else if FindClose(Inside(s)) >= 0 {
      ClosedReads(s, texts, codes);
      TextThenBlock(Inside(s)[FindClose(Inside(s)) + 2..], ParseBlock(texts, Inside(s)[..FindClose(Inside(s))]), codes);
    } else {
      OpenReads(s, texts, codes);
    }
  }

  lemma LineBreakHere(s: string)
    requires s != ""
    ensures FindBlocks("\n" + s) == FindBlocks(s)
  {
    HeadAndTail("\n", s);
    EmptyFirst(s);
    assert ("\n" + s)[..2][0] == '\n';
  }

  /** The appended block is found as one comment, and nothing after it. */
  lemma BlockIsFound(codes: seq<string>)
    requires PlainCodes(codes)
    ensures FindBlocks(BlockTail(codes)) == ["\n" + Entries(codes)]
  {
    var inner := "\n" + Entries(codes);
    var s := "/*" + (inner + ("*/" + "\n"));
    EntriesHaveNoClose(codes);
    if Entries(codes) != "" { CloseSkips("\n", Entries(codes)); }
    CommentIsFound(inner, "\n");
    LineBreakHere(s);
    LineBreakHere("\n" + s);
    BlockText(Entries(codes));
    assert FindBlocks("\n") == [];
  }

  lemma CommentIsFound(inner: string, rest: string)
    requires FindClose(inner) < 0 && inner != "" && inner[0] != '*'
    ensures FindBlocks("/*" + (inner + ("*/" + rest))) == [inner] + FindBlocks(rest)
  {
    var after := inner + ("*/" + rest);
    var s := "/*" + after;
    CloseAt(inner, rest);
    assert HasPrefix(s, "/*") && s[2..] == after && after[0] == inner[0];
    assert after[..|inner|] == inner && after[|inner| + 2..] == rest;
  }

  lemma BlockText(entries: string)
    ensures Opening() + (entries + ("*/" + "\n")) == "\n" + ("\n" + ("/*" + (("\n" + entries) + ("*/" + "\n"))))
  {
    assert Opening() == "\n" + ("\n" + ("/*" + "\n"));
  }

  /** The block's own text, between the opening and the end of the comment. */
  lemma BlockReads(texts: Texts, codes: seq<string>)
    requires PlainCodes(codes)
    ensures ParseBlock(texts, "\n" + Entries(codes)) == AllRead(Parse("", texts), codes).texts
  {
    assert "\n" + Entries(codes) == "" + "\n" + Entries(codes);
    IdleLine(Parse("", texts), "", Entries(codes));
    EntriesRead(Parse("", texts), codes);
  }

  lemma BlockAlone(texts: Texts, codes: seq<string>)
    requires PlainCodes(codes)
    ensures ParseBlocks(texts, FindBlocks(BlockTail(codes))) == AllRead(Parse("", texts), codes).texts
  {
    BlockIsFound(codes);
    BlockReads(texts, codes);
    OneBlock(texts, "\n" + Entries(codes));
  }

  lemma ClosedReads(s: string, texts: Texts, codes: seq<string>)
    requires |s| >= 2 && HasPrefix(s, "/*") && FindClose(Inside(s)) >= 0
    ensures var text, k := Inside(s), FindClose(Inside(s));
      ParseBlocks(texts, FindBlocks(s + BlockTail(codes)))
      == ParseBlocks(ParseBlock(texts, text[..k]), FindBlocks(text[k + 2..] + BlockTail(codes)))
  {
    var text, k, tail := Inside(s), FindClose(Inside(s)), BlockTail(codes);
    BlockTailStarts(codes);
    HeadBlockStays(s, tail);
    FirstBlock(texts, text[..k], FindBlocks(text[k + 2..] + tail));
  }

  lemma HeadBlockStays(s: string, tail: string)
    requires |s| >= 2 && HasPrefix(s, "/*") && FindClose(Inside(s)) >= 0 && tail != "" && tail[0] == '\n'
    ensures var text, k := Inside(s), FindClose(Inside(s));
      FindBlocks(s + tail) == [text[..k]] + FindBlocks(text[k + 2..] + tail)
  {
    InsideGoesOn(s, tail);
    CloseStays(Inside(s), tail);
    BlockAtHead(s + tail);
  }

  lemma BlockTailStarts(codes: seq<string>)
    ensures BlockTail(codes) != "" && BlockTail(codes)[0] == '\n'
  {
    assert Opening()[0] == '\n';
  }

  lemma OpenReads(s: string, texts: Texts, codes: seq<string>)
    requires |s| >= 2 && HasPrefix(s, "/*") && FindClose(Inside(s)) < 0 && PlainCodes(codes)
    ensures ParseBlocks(texts, FindBlocks(s + BlockTail(codes))) == AllRead(ReadText(Parse("", texts), Inside(s)), codes).texts
  {
    var text := Inside(s);
    var swallowed := text + Opening() + Entries(codes);
    BlockTailStarts(codes);
    InsideGoesOn(s, BlockTail(codes));
    BlockCloses(text, codes);
    SwallowedEnds(text, Entries(codes));
    BlockAtHead(s + BlockTail(codes));
    assert FindBlocks("\n") == [] && [swallowed] + [] == [swallowed];
    SwallowedReads(Parse("", texts), text, codes);
    OneBlock(texts, swallowed);
  }

  lemma SwallowedEnds(text: string, entries: string)
    ensures var whole, n := text + (Opening() + (entries + ("*/" + "\n"))), |text + Opening() + entries|;
      n + 2 <= |whole| && whole[..n] == text + Opening() + entries && whole[n + 2..] == "\n"
  {
    var swallowed := text + Opening() + entries;
    var end := "*/" + "\n";
    assert text + (Opening() + (entries + end)) == swallowed + end;
    assert end[2..] == "\n";
    AppendSlices(swallowed, end, |swallowed|, |swallowed|);
  }

  lemma OneBlock(texts: Texts, block: string)
    ensures ParseBlocks(texts, [block]) == ParseBlock(texts, block)
  {
    assert [block][1..] == [];
  }

  lemma FirstBlock(texts: Texts, block: string, rest: seq<string>)
    ensures ParseBlocks(texts, [block] + rest) == ParseBlocks(ParseBlock(texts, block), rest)
  {
    HeadAndTail([block], rest);
    EmptyFirst(rest);
  }

  // ----- The file -----

  /** Reading a file to which the writer has added its block: for all codes that leave the comment whole, the
      entries are read one after the other from where the file's own comments end. */
  lemma AnyCodesRoundTrip(content: string, texts: Texts)
    requires !HasBlock(content) && FindCodes(content) != [] && PlainCodes(FindCodes(content))
    ensures ParseBlocks(texts, FindBlocks(WithBlock(content))) ==
            AllRead(Before(TrimTail(content), texts), FindCodes(content)).texts
  {
    var codes := FindCodes(content);
    assert WithBlock(content) == TrimTail(content) + BlockTail(codes);
    TextThenBlock(TrimTail(content), texts, codes);
  }

  lemma GoodIsPlain(codes: seq<string>)
    requires GoodCodes(codes)
    ensures PlainCodes(codes)
  {
    forall c | c in codes ensures '\n' !in c && FindClose(c) < 0 {
      HintIsPlain(c);
      NoSlashNoClose(c);
    }
  }

  /** For codes over the alphabet, that gives what was to be seen in the file before, and the three texts of every
      code. What was to be seen is what the parser found in the file exactly when the file closes its comments. */
  lemma RoundTrip(content: string, texts: Texts)
    requires !HasBlock(content) && FindCodes(content) != [] && GoodCodes(FindCodes(content))
    ensures var before := TrimTail(content);
      && ParseBlocks(texts, FindBlocks(WithBlock(content))) == AllAdded(ParseBlocks(texts, Seen(before)), FindCodes(content))
      && (Seen(before) == FindBlocks(before) <==> Closed(before))
  {
    var before, codes := TrimTail(content), FindCodes(content);
    GoodIsPlain(codes);
    AnyCodesRoundTrip(content, texts);
    BeforeIsSeen(before, texts);
    GoodCodesAreAdded(Before(before, texts), codes);
    SeenIsFoundIff(before);
  }

  // ----- Writing twice -----

  lemma {:induction false} BlockInSuffix(a: string, b: string)
    requires HasBlock(b)
    ensures HasBlock(a + b)
  {
    if a == "" {
      assert a + b == b;
    } else {
      BlockInSuffix(a[1..], b);
      assert (a + b)[1..] == a[1..] + b;
    }
  }

  lemma FreshBlockIsSeen(rest: string)
    ensures HasBlock("/*\n!" + rest)
  {
    var s := "/*\n!" + rest;
    assert HasPrefix(s, "/*");
    assert s[2..] == "\n" + ("!" + rest);
    SpanAppend("\n", "!" + rest, Spaces());
    assert s[2..][..1] == "\n";
  }

  /** A second `AddBlockIfMissing` leaves the file as it is, whatever the file holds. */
  lemma SecondWriteChangesNothing(content: string)
    ensures WithBlock(WithBlock(content)) == WithBlock(content)
  {
    var codes := FindCodes(content);
    if !HasBlock(content) && codes != [] {
      var rest := Entries(codes)[1..] + "*/" + "\n";
      EntriesStart(codes);
      FreshBlockIsSeen(rest);
      BlockInSuffix(TrimTail(content) + "\n\n", "/*\n!" + rest);
      BlockAsSuffix(TrimTail(content), Entries(codes));
    }
  }

  lemma EntriesStart(codes: seq<string>)
    requires codes != []
    ensures Entries(codes) != "" && Entries(codes)[0] == '!'
  {
    assert EntryText(codes[0])[0] == '!';
  }

  lemma BlockAsSuffix(head: string, entries: string)
    requires entries != "" && entries[0] == '!'
    ensures head + ("\n\n/*\n" + entries + "*/") + "\n" == (head + "\n\n") + ("/*\n!" + (entries[1..] + "*/" + "\n"))
  {
    assert entries == "!" + entries[1..];
    assert "\n\n/*\n" == "\n\n" + "/*\n" && "/*\n!" == "/*\n" + "!";
  }
}
