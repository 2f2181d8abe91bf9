/** The browser client's signer, for requests that carry their signature in a header, and its agreement
    with the server. */
module ClientSigner {
  import opened Seqs
  import opened Results
  import opened Sorting
  import opened Text
  import opened Url
  import opened CanonicalQuery
  import opened ClientQuery
  import opened ServerRequest
  import opened AuthHeaders

  const UNSIGNABLE: set<string> := {
    "authorization", "content-type", "content-length", "user-agent", "presigned-expires", "expect",
    "x-amzn-trace-id", "range", "connection"}

  /** `replace(/\s+/g, ' ')`. */
  function Collapse(s: string): string {
    if s == "" then ""
    else if !IsSpace(s[0]) then [s[0]] + Collapse(s[1..])
    else if |s| > 1 && IsSpace(s[1]) then Collapse(s[1..])
    else " " + Collapse(s[1..])
  }

  function ToUpper(s: string): string {
    seq(|s|, i requires 0 <= i < |s| => if 'a' <= s[i] <= 'z' then (s[i] as int - 'a' as int + 'A' as int) as char else s[i])
  }

  predicate IsSmall(c: char) {
    'a' <= c <= 'z'
  }

  /** Capitals are the same letters without a small one among them; a text in capitals is left as it is. */
  lemma UpperIs(s: string)
    ensures ToLower(ToUpper(s)) == ToLower(s) && forall c :: c in ToUpper(s) ==> !IsSmall(c)
    ensures ToUpper(s) == s <==> forall c :: c in s ==> !IsSmall(c)
  {
    if forall c :: c in s ==> !IsSmall(c) {
      forall i | 0 <= i < |s| ensures ToUpper(s)[i] == s[i] { assert s[i] in s; }
    }
  }

  /** The signer for requests that carry their signature in a header. */
  class Signer {
    const verb: string
    const host: string
    const path: string
    const body: string
    const region: string
    const service: string
    const datetime: string
    const date: string
    var headers: map<string, string>
    var signable: seq<string>
    var signedHeaders: string
    var canonicalHeaders: string
    var encodedSearch: string

    /** `given` are the caller's headers, names in lower case and values trimmed; `path` is the encoded path. */
    constructor (verb: string, host: string, path: string, params: seq<Pair>, body: string, given: map<string, string>,
                 region: string, service: string, datetime: string, sessionToken: string, appendSessionToken: bool, allHeaders: bool)
      requires |datetime| >= 8
      ensures this.verb == verb && this.host == host && this.path == path && this.body == body
      ensures this.region == region && this.service == service && this.datetime == datetime && date == datetime[..8]
      ensures headers == SignedMap(OwnNames(), given, service, datetime, sessionToken, appendSessionToken || service == "iotdevicegateway")
      ensures forall n :: n in signable <==> n == "host" || (n in headers && (allHeaders || n !in UNSIGNABLE))
      ensures Sorted(StringOrder(), signable) && signable != []
      ensures signedHeaders == Join(signable, ";")
      ensures canonicalHeaders == Join(ClientLines(headers, host, signable), "\n")
      ensures encodedSearch == EncodedSearch(params, service == "s3")
    {
      this.verb, this.host, this.path, this.body := verb, host, path, body;
      this.region, this.service, this.datetime, date := region, service, datetime, datetime[..8];
      var hs := PrepareHeaders(given, service, datetime, sessionToken, appendSessionToken || service == "iotdevicegateway");
      var names := SignableNames(hs, allHeaders);
      var kept := KeepParams(params, service == "s3");
      var lines := ClientLines(hs, host, names);
      headers := hs;
      signable := names;
      signedHeaders := Join(names, ";");
      canonicalHeaders := Join(lines, "\n");
      encodedSearch := SearchOf(kept);
    }

    function CanonicalString(sha256: string -> string): string
      reads this
    {
      var given := if "x-amz-content-sha256" in headers then headers["x-amz-content-sha256"] else "";
      Assemble(ToUpper(verb), path, encodedSearch, canonicalHeaders + "\n", signedHeaders,
               if given == "" then sha256(body) else given)
    }

    /** `signature`, with the string to sign. */
    function Signature(c: Crypto, secret: string): string
      reads this
    {
      var scope := Join([date, region, service, "aws4_request"], "/");
      var toSign := Join(["AWS4-HMAC-SHA256", datetime, scope, c.sha256(CanonicalString(c.sha256))], "\n");
      c.hex(c.hmac(Credentials(c, secret, date, region, service), toSign))
    }

    function AuthHeader(accessKey: string, signature: string): string
      reads this
    {
      Header(accessKey, date, region, service, signedHeaders, signature)
    }
  }

  /** The chain of keys in `signature`. */
  function Credentials(c: Crypto, secretAccessKey: string, date: string, region: string, service: string): string {
    var kDate := c.hmac("AWS4" + secretAccessKey, date);
    var kRegion := c.hmac(kDate, region);
    var kService := c.hmac(kRegion, service);
    c.hmac(kService, "aws4_request")
  }

  /** The header names that the signer itself uses, and the value it gives a body that is not signed. */
  datatype Names = Names(host: string, hash: string, unsigned: string, date: string, token: string)

  function OwnNames(): Names {
    Names("host", "x-amz-content-sha256", "UNSIGNED-PAYLOAD", "x-amz-date", "x-amz-security-token")
  }

  /** The caller's headers after the signer's changes. */
  function SignedMap(ns: Names, given: map<string, string>, service: string, datetime: string, sessionToken: string, appendSessionToken: bool): map<string, string> {
    (if service == "s3" && ns.hash !in given then (given - {ns.host})[ns.hash := ns.unsigned] else given - {ns.host})
    + map[ns.date := datetime]
    + if sessionToken != "" && !appendSessionToken then map[ns.token := sessionToken] else map[]
  }

  /** The signer drops the host, sets the time, for S3 declares the body unsigned unless its hash is given, adds the
      session token if there is one that is not appended later, and leaves all other headers as they came. */
  lemma HeadersSet(given: map<string, string>, service: string, datetime: string, sessionToken: string, append: bool, n: string)
    ensures var hs := SignedMap(OwnNames(), given, service, datetime, sessionToken, append);
      var token := sessionToken != "" && !append;
      ValueIn(hs, n) ==
        if n == "x-amz-security-token" && token then Some(sessionToken)
        else if n == "x-amz-date" then Some(datetime)
        else if n == "x-amz-content-sha256" && service == "s3" && n !in given then Some("UNSIGNED-PAYLOAD")
        else if n == "host" then None
        else ValueIn(given, n)
  {
    var ns := OwnNames();
    assert |ns.hash| == 20 && |ns.date| == 10 && |ns.host| == 4 && |ns.token| == 20 && ns.token[6] != ns.hash[6];
  }

  function ValueIn(headers: map<string, string>, n: string): Option<string> {
    if n in headers then Some(headers[n]) else None
  }

  /** The header updates of the constructor. */
  method PrepareHeaders(given: map<string, string>, service: string, datetime: string, sessionToken: string, appendSessionToken: bool)
    returns (hs: map<string, string>)
    ensures hs == SignedMap(OwnNames(), given, service, datetime, sessionToken, appendSessionToken)
  {
    hs := given - {"host"};
    if service == "s3" && "x-amz-content-sha256" !in hs {
      hs := hs["x-amz-content-sha256" := "UNSIGNED-PAYLOAD"];
    }
    hs := hs["x-amz-date" := datetime];
    if sessionToken != "" && !appendSessionToken {
      hs := hs["x-amz-security-token" := sessionToken];
    }
  }

  method SignableNames(headers: map<string, string>, allHeaders: bool) returns (names: seq<string>)
    ensures forall n :: n in names <==> n == "host" || (n in headers && (allHeaders || n !in UNSIGNABLE))
    ensures Sorted(StringOrder(), names) && names != []
  {
    names := ["host"];
    var todo := headers.Keys;
    while todo != {}
      invariant todo <= headers.Keys && names != []
      invariant forall n :: n in names <==> n == "host" || (n in headers.Keys - todo && (allHeaders || n !in UNSIGNABLE))
      decreases todo
    {
      var n :| n in todo;
      todo := todo - {n};
      if allHeaders || n !in UNSIGNABLE {
        names := names + [n];
      }
    }
    StringsTotallyOrdered();
    SortPermutes(StringOrder(), names);
    SortSorted(StringOrder(), names);
    ghost var before := names;
    names := SortStrings(names);
    forall n ensures n in names <==> n in before {
      assert n in names <==> n in multiset(names);
      assert n in before <==> n in multiset(before);
    }
  }

  function ClientLine(headers: map<string, string>, host: string, name: string): string {
    name + ":" + (if name == "host" then host else Collapse(if name in headers then headers[name] else ""))
  }

  function ClientLines(headers: map<string, string>, host: string, names: seq<string>): seq<string> {
    if names == [] then [] else [ClientLine(headers, host, names[0])] + ClientLines(headers, host, names[1..])
  }

  // ----- The header lines of the two sides -----

  /** A header value that both sides write alike: the client collapses its white space, the server trims it. */
  predicate Alike(v: string) {
    Collapse(v) == TrimSpace(v)
  }

  ghost predicate SingleSpaced(v: string) {
    && (forall i :: 0 <= i < |v| && IsSpace(v[i]) ==> v[i] == ' ')
    && (forall i :: 0 <= i < |v| - 1 && IsSpace(v[i]) ==> !IsSpace(v[i + 1]))
  }

  lemma {:induction false} CollapseShrinks(v: string)
    ensures |Collapse(v)| <= |v|
    ensures Collapse(v) == v <==> SingleSpaced(v)
  {
    if v != "" {
      CollapseShrinks(v[1..]);
      assert v == [v[0]] + v[1..];
      SingleSpacedStep(v);
      if Collapse(v) == v && !(IsSpace(v[0]) && |v| > 1 && IsSpace(v[1])) {
        assert Collapse(v)[1..] == Collapse(v[1..]);
      }
    }
  }

  /** A word is kept, and the white space behind it becomes one space. */
  lemma {:induction false} CollapseWords(word: string, white: string, rest: string)
    requires (forall c :: c in word ==> !IsSpace(c)) && (forall c :: c in white ==> IsSpace(c))
    requires rest != "" ==> !IsSpace(rest[0])
    ensures Collapse(word + (white + rest)) == word + ((if white == "" then "" else " ") + Collapse(rest))
  {
    if word == "" {
      CollapseWhite(white, rest);
      EmptyFirst(white + rest);
      EmptyFirst((if white == "" then "" else " ") + Collapse(rest));
    } else {
      CollapseWords(word[1..], white, rest);
      HeadAndTail(word, white + rest);
      assert word[0] in word;
      Associates([word[0]], word[1..], (if white == "" then "" else " ") + Collapse(rest));
      assert word == [word[0]] + word[1..];
    }
  }

  lemma {:induction false} CollapseWhite(white: string, rest: string)
    requires (forall c :: c in white ==> IsSpace(c)) && (rest != "" ==> !IsSpace(rest[0]))
    ensures Collapse(white + rest) == (if white == "" then "" else " ") + Collapse(rest)
  {
    if white == "" {
      EmptyFirst(rest);
      EmptyFirst(Collapse(rest));
    } else {
      CollapseWhite(white[1..], rest);
      HeadAndTail(white, rest);
      assert white[0] in white && (|white| > 1 ==> white[1] in white);
      EmptyFirst(Collapse(rest));
      if |white| == 1 { EmptyFirst(rest); }
    }
  }

  lemma SingleSpacedStep(v: string)
    requires v != ""
    ensures SingleSpaced(v) <==>
      SingleSpaced(v[1..]) && (IsSpace(v[0]) ==> v[0] == ' ' && (|v| > 1 ==> !IsSpace(v[1])))
  {
    if SingleSpaced(v) {
      forall i | 0 <= i < |v| - 2 && IsSpace(v[1..][i]) ensures !IsSpace(v[1..][i + 1]) {
        assert v[1..][i] == v[i + 1] && v[1..][i + 1] == v[i + 2];
      }
    }
    if SingleSpaced(v[1..]) && (IsSpace(v[0]) ==> v[0] == ' ' && (|v| > 1 ==> !IsSpace(v[1]))) {
      forall i | 0 <= i < |v| && IsSpace(v[i]) ensures v[i] == ' ' { assert i > 0 ==> v[i] == v[1..][i - 1]; }
      forall i | 0 <= i < |v| - 1 && IsSpace(v[i]) ensures !IsSpace(v[i + 1]) {
        assert i > 0 ==> v[i] == v[1..][i - 1] && v[i + 1] == v[1..][i];
      }
    }
  }

  /** For a trimmed value, as every header value is, that is: its white space is single spaces. */
  lemma AlikeIff(v: string)
    requires Trimmed(v)
    ensures Alike(v) <==> SingleSpaced(v)
  {
    TrimmedIsFixed(v);
    CollapseShrinks(v);
  }

  ghost predicate PlainNames(names: seq<string>) {
    forall n :: n in names ==> ToLower(n) == n && ';' !in n && '\n' !in n
  }

  /** No line break in it, as in all that goes into the head of a request. */
  predicate OneLine(s: string) {
    '\n' !in s
  }

  function ValueOf(headers: map<string, string>, name: string): string {
    if name in headers then headers[name] else ""
  }

  function ServerLine(headers: map<string, string>, host: string, name: string): string {
    name + ":" + (if name == "host" then host else TrimSpace(ValueOf(headers, name)))
  }

  function ServerLines(headers: map<string, string>, host: string, names: seq<string>): seq<string> {
    if names == [] then []
    else
      [ServerLine(headers, host, names[0])] + ServerLines(headers, host, names[1..])
  }

  lemma {:induction false} LinesAt(headers: map<string, string>, host: string, names: seq<string>)
    ensures |ClientLines(headers, host, names)| == |ServerLines(headers, host, names)| == |names|
    ensures forall i :: 0 <= i < |names| ==> ClientLines(headers, host, names)[i] == ClientLine(headers, host, names[i])
    ensures forall i :: 0 <= i < |names| ==> ServerLines(headers, host, names)[i] == ServerLine(headers, host, names[i])
  {
    if names != [] { LinesAt(headers, host, names[1..]); }
  }

  lemma {:induction false} ServerText(h: Request, names: seq<string>)
    requires PlainNames(names) && "host" !in h.headers && names != []
    ensures HeaderLines(h, names) == Join(ServerLines(h.headers, h.host, names), "\n") + "\n"
  {
    var n := names[0];
    assert n in names && ToLower(n) == n;
    assert h.Get(n) == ValueOf(h.headers, n);
    var lines := ServerLines(h.headers, h.host, names);
    assert TrimSpace("") == "";
    assert HeaderLine(h, n) == lines[0] + "\n";
    if |names| == 1 {
      assert names[1..] == [] && HeaderLines(h, names) == HeaderLine(h, n) + "";
    } else {
      ServerText(h, names[1..]);
      assert lines[1..] == ServerLines(h.headers, h.host, names[1..]);
    }
  }

  /** The header lines are the same exactly if every signed value is written alike. */
  lemma HeadersAgreeIff(h: Request, names: seq<string>)
    requires PlainNames(names) && "host" !in h.headers && names != []
    requires OneLine(h.host) && forall n :: n in h.headers ==> OneLine(h.headers[n])
    ensures Join(ClientLines(h.headers, h.host, names), "\n") + "\n" == HeaderLines(h, names)
            <==> forall n :: n in names && n in h.headers ==> Alike(h.headers[n])
  {
    var client, server := ClientLines(h.headers, h.host, names), ServerLines(h.headers, h.host, names);
    ServerText(h, names);
    LinesAt(h.headers, h.host, names);
    forall i | 0 <= i < |names|
      ensures '\n' !in client[i] && '\n' !in server[i]
      ensures client[i] == server[i] <==> (names[i] in h.headers ==> Alike(h.headers[names[i]]))
    {
      assert names[i] in names;
      LinesTell(names[i], h.host, h.headers);
    }
    SameJoins(client, server);
    assert forall n :: n in names ==> exists i :: 0 <= i < |names| && names[i] == n;
  }

  lemma LinesTell(n: string, host: string, headers: map<string, string>)
    requires '\n' !in n && OneLine(host) && "host" !in headers && forall m :: m in headers ==> OneLine(headers[m])
    ensures '\n' !in ClientLine(headers, host, n) && '\n' !in ServerLine(headers, host, n)
    ensures ClientLine(headers, host, n) == ServerLine(headers, host, n) <==> (n in headers ==> Alike(headers[n]))
  {
    var v := ValueOf(headers, n);
    CollapseHasNoBreak(v);
    TrimHasNoBreak(v);
    assert TrimSpace("") == "" && Collapse("") == "";
    SameTail(n + ":", Collapse(v), TrimSpace(v));
  }

  lemma {:induction false} CollapseHasNoBreak(v: string)
    ensures OneLine(Collapse(v))
  {
    if v != "" { CollapseHasNoBreak(v[1..]); }
  }

  lemma TrimHasNoBreak(v: string)
    requires OneLine(v)
    ensures OneLine(TrimSpace(v))
  {
    TrimLeftKeeps(v);
    TrimRightKeeps(TrimLeft(v));
  }

  lemma {:induction false} TrimLeftKeeps(v: string)
    ensures forall c :: c in TrimLeft(v) ==> c in v
  {
    if v != "" && IsSpace(v[0]) { TrimLeftKeeps(v[1..]); }
  }

  lemma {:induction false} TrimRightKeeps(v: string)
    ensures forall c :: c in TrimRight(v) ==> c in v
  {
    if v != "" && IsSpace(v[|v| - 1]) { TrimRightKeeps(v[..|v| - 1]); }
  }

  lemma SameJoins(a: seq<string>, b: seq<string>)
    requires |a| == |b| > 0 && forall i :: 0 <= i < |a| ==> '\n' !in a[i] && '\n' !in b[i]
    ensures Join(a, "\n") + "\n" == Join(b, "\n") + "\n" <==> forall i :: 0 <= i < |a| ==> a[i] == b[i]
  {
    SplitJoin(a, '\n');
    SplitJoin(b, '\n');
    var p, q := Join(a, "\n"), Join(b, "\n");
    if p + "\n" == q + "\n" {
      assert (p + "\n")[..|p|] == p && (q + "\n")[..|q|] == q && |p| == |q|;
    }
    if forall i :: 0 <= i < |a| ==> a[i] == b[i] { assert a == b; }
  }

  // ----- Both sides agree -----

  /** The request as it arrives, with the query text `raw`. */
  function Sent(s: Signer, raw: string): Request
    reads s
  {
    Request(s.verb, s.path, raw, s.host, s.headers)
  }

  /** The signer's fields are as its constructor leaves them for the query text `raw` that it reads as `params`,
      and nothing in the head of the request holds a line break. */
  ghost predicate AsSigned(s: Signer, raw: string, params: seq<Pair>)
    reads s
  {
    && ReadAs(raw, params) && OneLine(raw) && s.encodedSearch == EncodedSearch(params, s.service == "s3")
    && Sorted(StringOrder(), s.signable) && s.signable != [] && PlainNames(s.signable)
    && s.signedHeaders == Join(s.signable, ";")
    && s.canonicalHeaders == Join(ClientLines(s.headers, s.host, s.signable), "\n")
    && "host" !in s.headers && OneLine(s.host) && (forall n :: n in s.headers ==> OneLine(s.headers[n]))
  }

  /** What the two sides must have in common. The client signs the method in capitals, and the server takes it as
      it came. */
  ghost predicate SidesAlike(s: Signer, raw: string, params: seq<Pair>)
    reads s
  {
    && ToUpper(s.verb) == s.verb
    && ParseQuery(raw).Some? && SignedAlike(params, s.service == "s3")
    && forall n :: n in s.signable && n in s.headers ==> Alike(s.headers[n])
  }

  /** When the request arrives as it was signed, client and server build the same canonical request exactly if the
      method is in capitals, they agree on the query, and they write every signed header alike. */
  lemma SidesAgreeIff(s: Signer, raw: string, params: seq<Pair>, sha256: string -> string)
    requires AsSigned(s, raw, params)
    ensures CanonicalRequest(Sent(s, raw), s.body, s.signedHeaders, sha256) == s.CanonicalString(sha256)
            <==> SidesAlike(s, raw, params)
  {
    var h := Sent(s, raw);
    QueriesAgreeIff(raw, params, s.service == "s3");
    SearchParses(params, s.service == "s3");
    CanonicalIsOneLine(raw, params);
    assert SortStrings(Split(s.signedHeaders, ';')) == s.signable by { NamesSurvive(s.signable); }
    HeadersAgreeIff(h, s.signable);
    LowerPayloadName();
    var given := h.Get("X-Amz-Content-Sha256");
    assert given == if "x-amz-content-sha256" in s.headers then s.headers["x-amz-content-sha256"] else "";
    LinesDiffer(s.verb, ToUpper(s.verb), s.path, Canonical(raw), s.encodedSearch,
                HeaderLines(h, s.signable), s.canonicalHeaders + "\n", s.signedHeaders,
                if given == "" then sha256(s.body) else given);
  }

  lemma CanonicalIsOneLine(raw: string, params: seq<Pair>)
    requires ReadAs(raw, params) && OneLine(raw)
    ensures OneLine(Canonical(raw))
  {
    if ParseQuery(raw).Some? {
      var ss := Sort(PairOrder(), params);
      ShowAllAt(ss);
      SortKeepsMembers(params);
      forall part | part in ShowAll(ss) ensures '\n' !in part {
        var i :| 0 <= i < |ss| && ShowAll(ss)[i] == part;
        assert ss[i] in params;
        EscapeIsPlain(ss[i].k);
        EscapeIsPlain(ss[i].v);
      }
      JoinHasNo(ShowAll(ss), '\n');
    }
  }

  /** The six lines tell their parts, as far as these differ in the two texts. */
  lemma LinesDiffer(verb: string, verb': string, path: string, q: string, q': string, headers: string, headers': string,
                    signed: string, payload: string)
    requires |verb| == |verb'| && OneLine(q) && OneLine(q')
    ensures Assemble(verb, path, q, headers, signed, payload) == Assemble(verb', path, q', headers', signed, payload)
            <==> verb == verb' && q == q' && headers == headers'
  {
    var a, b := "\n" + path + "\n", "\n" + Join([signed, payload], "\n");
    SixLines(verb, path, q, headers, signed, payload);
    SixLines(verb', path, q', headers', signed, payload);
    HeadsTell(verb, verb', a + (q + ("\n" + (headers + b))), a + (q' + ("\n" + (headers' + b))));
    SameTail(a, q + ("\n" + (headers + b)), q' + ("\n" + (headers' + b)));
    FirstLinesTell(q, q', headers + b, headers' + b);
    TailsTell(headers, headers', b);
  }

  lemma HeadsTell(a: string, b: string, c: string, d: string)
    requires |a| == |b|
    ensures a + c == b + d <==> a == b && c == d
  {
    assert (a + c)[..|a|] == a && (b + d)[..|a|] == b && (a + c)[|a|..] == c && (b + d)[|a|..] == d;
  }

  lemma TailsTell(a: string, b: string, c: string)
    ensures a + c == b + c <==> a == b
  {
    if a + c == b + c {
      assert |a| == |b|;
      HeadsTell(a, b, c, c);
    }
  }

  lemma FirstLinesTell(a: string, b: string, c: string, d: string)
    requires OneLine(a) && OneLine(b)
    ensures a + ("\n" + c) == b + ("\n" + d) <==> a == b && c == d
  {
    var x, y := a + ("\n" + c), b + ("\n" + d);
    if x == y {
      assert x[|a|] == '\n' && y[|b|] == '\n';
      assert forall i :: 0 <= i < |a| ==> x[i] != '\n';
      assert forall i :: 0 <= i < |b| ==> y[i] != '\n';
      HeadsTell(a, b, "\n" + c, "\n" + d);
      SameTail("\n", c, d);
    }
  }

  lemma SixLines(verb: string, path: string, q: string, headers: string, signed: string, payload: string)
    ensures Assemble(verb, path, q, headers, signed, payload) ==
      verb + (("\n" + path + "\n") + (q + ("\n" + (headers + ("\n" + Join([signed, payload], "\n"))))))
  {
    var l4, l5 := [headers, signed, payload], [q, headers, signed, payload];
    JoinMore(verb, [path, q, headers, signed, payload], "\n");
    JoinMore(path, l5, "\n");
    JoinMore(q, l4, "\n");
    JoinMore(headers, [signed, payload], "\n");
    assert [headers] + [signed, payload] == l4 && [q] + l4 == l5 && [path] + l5 == [path, q, headers, signed, payload];
    assert [verb] + [path, q, headers, signed, payload] == [verb, path, q, headers, signed, payload];
    Associates(headers, "\n", Join([signed, payload], "\n"));
    Associates(q, "\n", Join(l4, "\n"));
    Associates("\n" + path, "\n", Join(l5, "\n"));
    Associates("\n", path, "\n" + Join(l5, "\n"));
    Associates(path, "\n", Join(l5, "\n"));
    Associates(verb, "\n", Join([path, q, headers, signed, payload], "\n"));
  }

  lemma NamesSurvive(names: seq<string>)
    requires Sorted(StringOrder(), names) && names != [] && PlainNames(names)
    ensures SortStrings(Split(Join(names, ";"), ';')) == names
  {
    SplitJoin(names, ';');
    StringsTotallyOrdered();
    SortOfSorted(StringOrder(), names);
  }

  lemma LowerPayloadName()
    ensures ToLower("X-Amz-Content-Sha256") == "x-amz-content-sha256"
  {
    assert |"X-Amz-Content-Sha256"| == |"x-amz-content-sha256"|;
  }
}
