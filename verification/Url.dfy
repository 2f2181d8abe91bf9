/** Go's `url.QueryEscape`, `url.QueryUnescape` and `url.ParseQuery`, with the percent-encoding of
    section 2.1 and the unreserved characters of section 2.3 of RFC 3986. */
module Url {
  import opened Seqs
  import opened Results
  import opened Text

  predicate Unreserved(c: char) {
    'a' <= c <= 'z' || 'A' <= c <= 'Z' || '0' <= c <= '9' || c == '-' || c == '_' || c == '.' || c == '~'
  }

  /** Go strings are strings of bytes. */
  ghost predicate Bytes(s: string) {
    forall i :: 0 <= i < |s| ==> s[i] as int < 256
  }

  ghost predicate AllUnreserved(s: string) {
    forall i :: 0 <= i < |s| ==> Unreserved(s[i])
  }

  function Hex(n: int): char
    requires 0 <= n < 16
  {
    if n < 10 then ('0' as int + n) as char else ('A' as int + n - 10) as char
  }

  function Unhex(c: char): (n: int)
    ensures -1 <= n < 16
  {
    if '0' <= c <= '9' then c as int - '0' as int
    else if 'A' <= c <= 'F' then c as int - 'A' as int + 10
    else if 'a' <= c <= 'f' then c as int - 'a' as int + 10
    else -1
  }

  /** The classes of RFC 3986, written out. */
  lemma UnreservedAre(c: char)
    ensures Unreserved(c) <==>
      c in "ABCDEFGHIJKLMNOPQRSTUVWXYZ" || c in "abcdefghijklmnopqrstuvwxyz" || c in "0123456789" || c in "-._~"
  {
    CapitalsAre(c);
    SmallLettersAre(c);
  }

  lemma HexDigitsAre(c: char)
    ensures UpperHex(c) <==> c in "0123456789ABCDEF"
    ensures Unhex(c) >= 0 <==> c in "0123456789" || c in "ABCDEF" || c in "abcdef"
  {
  }

  lemma DigitsAre(n: int)
    requires 0 <= n < 16
    ensures Hex(n) == "0123456789ABCDEF"[n]
    ensures Unhex("0123456789ABCDEF"[n]) == n && Unhex("0123456789abcdef"[n]) == n
  {
  }

  function Percent(c: char): string {
    ['%', Hex(c as int / 16 % 16), Hex(c as int % 16)]
  }

  function EscapeChar(c: char): string {
    if Unreserved(c) then [c] else if c == ' ' then "+" else Percent(c)
  }

  function QueryEscape(s: string): string {
    if s == "" then "" else EscapeChar(s[0]) + QueryEscape(s[1..])
  }

  function QueryUnescape(s: string): Option<string> {
    if s == "" then Some("")
    else if s[0] == '%' then
      if |s| < 3 || Unhex(s[1]) < 0 || Unhex(s[2]) < 0 then None
      else
        match QueryUnescape(s[3..])
        case None => None
        case Some(t) => Some([(Unhex(s[1]) * 16 + Unhex(s[2])) as char] + t)
    else
      match QueryUnescape(s[1..])
      case None => None
      case Some(t) => Some([if s[0] == '+' then ' ' else s[0]] + t)
  }

  lemma HexInverts(n: int)
    requires 0 <= n < 16
    ensures Unhex(Hex(n)) == n
  {
  }

  lemma PercentReads(c: char, rest: string, t: string)
    requires c as int < 256 && QueryUnescape(rest) == Some(t)
    ensures QueryUnescape(Percent(c) + rest) == Some([c] + t)
  {
    HexInverts(c as int / 16);
    HexInverts(c as int % 16);
    assert c as int / 16 % 16 == c as int / 16;
    assert (Percent(c) + rest)[3..] == rest;
    assert (c as int / 16) * 16 + c as int % 16 == c as int;
  }

  lemma EscapedCharReads(c: char, rest: string, t: string)
    requires c as int < 256 && QueryUnescape(rest) == Some(t)
    ensures QueryUnescape(EscapeChar(c) + rest) == Some([c] + t)
  {
    if Unreserved(c) {
      assert ([c] + rest)[1..] == rest;
    } else if c == ' ' {
      assert ("+" + rest)[1..] == rest;
    } else {
      PercentReads(c, rest, t);
    }
  }

  /** Unescaping undoes escaping. */
  lemma {:induction false} EscapeRoundTrip(s: string)
    requires Bytes(s)
    ensures QueryUnescape(QueryEscape(s)) == Some(s)
  {
    if s != "" {
      EscapeRoundTrip(s[1..]);
      EscapedCharReads(s[0], QueryEscape(s[1..]), s[1..]);
      assert s == [s[0]] + s[1..];
    }
  }

  lemma {:induction false} UnescapeGivesBytes(s: string)
    requires Bytes(s)
    ensures QueryUnescape(s).Some? ==> Bytes(QueryUnescape(s).value)
  {
    if s != "" {
      if s[0] == '%' {
        if |s| >= 3 { UnescapeGivesBytes(s[3..]); }
      } else {
        UnescapeGivesBytes(s[1..]);
      }
    }
  }

  /** Escaped text holds none of the characters that structure a query. */
  lemma {:induction false} EscapeIsPlain(s: string)
    requires Bytes(s)
    ensures '&' !in QueryEscape(s) && '=' !in QueryEscape(s) && ';' !in QueryEscape(s) && '\n' !in QueryEscape(s)
    ensures Bytes(QueryEscape(s))
  {
    if s != "" { EscapeIsPlain(s[1..]); }
  }

  predicate UpperHex(c: char) {
    '0' <= c <= '9' || 'A' <= c <= 'F'
  }

  /** Unreserved characters, plus signs and percent signs, each of these before two digits in capitals. */
  ghost predicate WellEscaped(t: string) {
    forall i :: 0 <= i < |t| ==> WellEscapedAt(t, i)
  }

  predicate WellEscapedAt(t: string, i: nat)
    requires i < |t|
  {
    && (Unreserved(t[i]) || t[i] == '+' || t[i] == '%')
    && (t[i] == '%' ==> i + 2 < |t| && UpperHex(t[i + 1]) && UpperHex(t[i + 2]))
  }

  lemma HexIsUpper(n: int)
    requires 0 <= n < 16
    ensures UpperHex(Hex(n)) && Unreserved(Hex(n)) && Hex(n) != '%'
  {
  }

  lemma CharIsWellEscaped(c: char)
    ensures WellEscaped(EscapeChar(c))
  {
    HexIsUpper(c as int / 16 % 16);
    HexIsUpper(c as int % 16);
  }

  lemma WellEscapedAppend(a: string, b: string)
    requires WellEscaped(a) && WellEscaped(b)
    ensures WellEscaped(a + b)
  {
    forall i | 0 <= i < |a + b| ensures WellEscapedAt(a + b, i) {
      assert if i < |a| then WellEscapedAt(a, i) else WellEscapedAt(b, i - |a|);
    }
  }

  /** Escaping writes the canonical form: nothing else, and capitals only. */
  lemma {:induction false} EscapeIsUpper(s: string)
    ensures WellEscaped(QueryEscape(s))
  {
    if s != "" {
      EscapeIsUpper(s[1..]);
      CharIsWellEscaped(s[0]);
      WellEscapedAppend(EscapeChar(s[0]), QueryEscape(s[1..]));
    }
  }

  // ----- Queries -----

  datatype Pair = Pair(k: string, v: string)

  /** What one segment of a query gives: nothing when it is empty, an error when it is malformed. */
  function Segment(s: string): Option<seq<Pair>> {
    if ';' in s then None
    else if s == "" then Some([])
    else
      var eq := IndexByte(s, '=');
      var k := QueryUnescape(if eq < 0 then s else s[..eq]);
      var v := QueryUnescape(if eq < 0 then "" else s[eq + 1..]);
      if k.None? || v.None? then None else Some([Pair(k.value, v.value)])
  }

  /** A segment is a name and, behind its first equals sign, a value; without one the value is empty. */
  lemma SegmentReads(k: string, v: string)
    requires Bytes(k) && ';' !in v
    ensures Segment(QueryEscape(k)) == Some(if k == "" then [] else [Pair(k, "")])
    ensures Segment(QueryEscape(k) + "=" + v) == match QueryUnescape(v) case None => None case Some(t) => Some([Pair(k, t)])
  {
    var name := QueryEscape(k);
    EscapeRoundTrip(k);
    EscapeIsPlain(k);
    CutAtEquals(name, v);
    assert k == "" <==> name == "";
    assert ';' !in name + "=" + v;
  }

  predicate WellFormed(segments: seq<string>) {
    forall s :: s in segments ==> Segment(s).Some?
  }

  function PairsOf(segment: string): seq<Pair> {
    match Segment(segment)
    case None => []
    case Some(ps) => ps
  }

  function Pairs(segments: seq<string>): seq<Pair> {
    if segments == [] then [] else PairsOf(segments[0]) + Pairs(segments[1..])
  }

  /** `url.ParseQuery`: the pairs in order, or an error if any segment is malformed. */
  function ParseQuery(raw: string): Option<seq<Pair>> {
    var segments := Split(raw, '&');
    if WellFormed(segments) then Some(Pairs(segments)) else None
  }

  lemma {:induction false} PairsAppend(a: seq<string>, b: seq<string>)
    ensures Pairs(a + b) == Pairs(a) + Pairs(b)
  {
    if a == [] {
      EmptyFirst(b);
      EmptyFirst(Pairs(b));
    } else {
      PairsAppend(a[1..], b);
      HeadAndTail(a, b);
      Associates(PairsOf(a[0]), Pairs(a[1..]), Pairs(b));
    }
  }

  /** The pairs do not depend on the order of the segments, counted with repetition. */
  lemma {:induction false} PairsPermute(a: seq<string>, b: seq<string>)
    requires multiset(a) == multiset(b)
    ensures multiset(Pairs(a)) == multiset(Pairs(b))
    decreases |a|
  {
    if a == [] {
      assert |multiset(b)| == |b|;
    } else {
      assert a[0] in multiset(b);
      var i :| 0 <= i < |b| && b[i] == a[0];
      TakeOut(a, 0);
      TakeOut(b, i);
      PairsPermute(Without(a, 0), Without(b, i));
    }
  }

  function Without(a: seq<string>, i: nat): (r: seq<string>)
    requires i < |a|
    ensures |r| == |a| - 1
  {
    a[..i] + a[i + 1..]
  }

  lemma PairsAround(front: seq<string>, x: string, back: seq<string>)
    ensures Pairs(front + [x] + back) == Pairs(front) + PairsOf(x) + Pairs(back)
  {
    PairsAppend(front + [x], back);
    PairsAppend(front, [x]);
    assert [x][1..] == [] && Pairs([x]) == PairsOf(x) + [];
  }

  lemma TakeOut(a: seq<string>, i: nat)
    requires i < |a|
    ensures multiset(Without(a, i)) == multiset(a) - multiset{a[i]}
    ensures multiset(Pairs(a)) == multiset(PairsOf(a[i])) + multiset(Pairs(Without(a, i)))
  {
    var front, back := a[..i], a[i + 1..];
    CutAt(a, i);
    MultisetAround(front, [a[i]], back);
    PairsAround(front, a[i], back);
    PairsAppend(front, back);
    MultisetAround(Pairs(front), PairsOf(a[i]), Pairs(back));
  }

  lemma WellFormedPermutes(a: seq<string>, b: seq<string>)
    requires multiset(a) == multiset(b)
    ensures WellFormed(a) <==> WellFormed(b)
  {
    assert forall s :: s in a <==> s in multiset(a);
    assert forall s :: s in b <==> s in multiset(b);
  }
}
