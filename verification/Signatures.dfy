/** What the server finds good: the signatures that the browser client makes, and no others. */
module Signatures {
  import opened Seqs
  import opened Sorting
  import opened Text
  import opened Url
  import opened CanonicalQuery
  import opened ClientQuery
  import opened ServerRequest
  import opened AuthHeaders
  import opened ClientSigner

  // ----- No collisions -----

  /** What is asked of the hash functions: different inputs give different outputs, and a digest is one line. */
  ghost predicate CollisionFree(c: Crypto) {
    && (forall x, y :: c.sha256(x) == c.sha256(y) ==> x == y)
    && (forall x :: OneLine(c.sha256(x)))
    && (forall k, l, x, y :: c.hmac(k, x) == c.hmac(l, y) ==> k == l && x == y)
    && (forall x, y :: ToLower(c.hex(x)) == ToLower(c.hex(y)) ==> x == y)
  }

  function Mark(c: char): char {
    if c == '\n' then '1' else if 'A' <= c <= 'Z' then '2' else '0'
  }

  function Bare(c: char): char {
    if c == '\n' then ' ' else LowerChar(c)
  }

  /** A text without line breaks and capitals, with a mark where there was one. */
  function Spelled(x: string): string {
    seq(2 * |x|, i requires 0 <= i < 2 * |x| => if i % 2 == 0 then Mark(x[i / 2]) else Bare(x[i / 2]))
  }

  lemma SpelledTells(x: string, y: string)
    ensures ToLower(Spelled(x)) == Spelled(x) && OneLine(Spelled(x))
    ensures Spelled(x) == Spelled(y) ==> x == y
  {
    if Spelled(x) == Spelled(y) {
      assert |Spelled(x)| == 2 * |x| && |Spelled(y)| == 2 * |y|;
      forall i | 0 <= i < |x| ensures x[i] == y[i] {
        assert Spelled(x)[2 * i] == Mark(x[i]) && Spelled(x)[2 * i + 1] == Bare(x[i]);
        assert Spelled(y)[2 * i] == Mark(y[i]) && Spelled(y)[2 * i + 1] == Bare(y[i]);
      }
    }
  }

  /** The length of the key, the key and the message, one after the other. */
  function Paired(k: string, x: string): string {
    seq(|k|, _ => '1') + ['0'] + k + x
  }

  lemma PairedTells(k: string, x: string, l: string, y: string)
    ensures Paired(k, x) == Paired(l, y) ==> k == l && x == y
  {
    if Paired(k, x) == Paired(l, y) {
      var p := Paired(k, x);
      assert (forall i :: 0 <= i < |k| ==> p[i] == '1') && p[|k|] == '0';
      assert (forall i :: 0 <= i < |l| ==> p[i] == '1') && p[|l|] == '0';
      assert |k| == |l|;
      assert p[|k| + 1..][..|k|] == k && p[|k| + 1..][..|k|] == l;
      assert p[|k| + 1..][|k|..] == x && p[|k| + 1..][|k|..] == y;
    }
  }

  function SpelledCrypto(): Crypto {
    Crypto(x => Spelled(x), (k, x) => Paired(k, x), x => Spelled(x))
  }

  /** The law can be met. */
  lemma SpelledIsCollisionFree()
    ensures CollisionFree(SpelledCrypto())
  {
    var c := SpelledCrypto();
    forall x, y
      ensures OneLine(c.sha256(x)) && (c.sha256(x) == c.sha256(y) ==> x == y)
      ensures ToLower(c.hex(x)) == ToLower(c.hex(y)) ==> x == y
    {
      SpelledTells(x, y);
      SpelledTells(y, x);
    }
    forall k, l, x, y ensures c.hmac(k, x) == c.hmac(l, y) ==> k == l && x == y { PairedTells(k, x, l, y); }
  }

  // ----- Which signatures are good -----

  lemma ScopeLine(a: string, b: string, c: string, d: string, sep: string)
    ensures Join([a, b, c, d], sep) == a + sep + b + sep + c + sep + d
  {
    JoinMore(a, [b, c, d], sep);
    JoinMore(b, [c, d], sep);
    JoinTwo(c, d, sep);
    assert [a] + [b, c, d] == [a, b, c, d] && [b] + [c, d] == [b, c, d];
    Associates(c, sep, d);
  }

  /** The text that `s` signs, as the server writes it. */
  function ToSign(datetime: string, scope: string, hashed: string): string {
    "AWS4-HMAC-SHA256" + "\n" + datetime + "\n" + scope + "\n" + hashed
  }

  function ScopeOf(date: string, region: string, service: string): string {
    date + "/" + region + "/" + service + "/" + "aws4_request"
  }

  lemma SignatureOf(s: Signer, c: Crypto, secret: string)
    ensures s.Signature(c, secret) ==
      c.hex(c.hmac(Credentials(c, secret, s.date, s.region, s.service),
                   ToSign(s.datetime, ScopeOf(s.date, s.region, s.service), c.sha256(s.CanonicalString(c.sha256)))))
  {
    ScopeLine(s.date, s.region, s.service, "aws4_request", "/");
    ScopeLine("AWS4-HMAC-SHA256", s.datetime, ScopeOf(s.date, s.region, s.service),
              c.sha256(s.CanonicalString(c.sha256)), "\n");
  }

  /** The request and the claims beside it are those that `s` signs. */
  ghost predicate IsSignedBy(s: Signer, c: Crypto, h: Request, body: string, auth: Auth, service: string)
    reads s
  {
    && auth.dateScope == s.date && s.region == (if auth.region != "" then auth.region else "us-east-1")
    && s.service == (if service != "" then service else "s3")
    && h.Get("X-Amz-Date") == s.datetime
    && CanonicalRequest(h, body, auth.signedHeaders, c.sha256) == s.CanonicalString(c.sha256)
  }

  /** For a request as the client signs it, the server finds one signature good, up to the case of its letters:
      the client's. */
  lemma OneSignatureIsGood(s: Signer, c: Crypto, h: Request, body: string, secret: string, auth: Auth, service: string)
    requires IsSignedBy(s, c, h, body, auth, service)
    ensures VerifyService(c, h, body, secret, auth, service)
            <==> ToLower(auth.signature) == ToLower(s.Signature(c, secret))
  {
    SignatureOf(s, c, secret);
  }

  lemma KeysTell(c: Crypto, secret: string, date: string, region: string, service: string,
                 secret': string, date': string, region': string, service': string)
    requires CollisionFree(c)
    ensures Credentials(c, secret, date, region, service) == SigningKey(c, secret', date', region', service')
            <==> secret == secret' && date == date' && region == region' && service == service'
  {
    SameTail("AWS4", secret, secret');
  }

  lemma TextsTell(datetime: string, datetime': string, scope: string, hashed: string, hashed': string)
    requires OneLine(hashed) && OneLine(hashed')
    ensures ToSign(datetime, scope, hashed) == ToSign(datetime', scope, hashed')
            <==> datetime == datetime' && hashed == hashed'
  {
    var a, b := "AWS4-HMAC-SHA256" + "\n" + datetime + "\n" + scope, "AWS4-HMAC-SHA256" + "\n" + datetime' + "\n" + scope;
    LastLinesTell(a, b, hashed, hashed');
    Associates("AWS4-HMAC-SHA256" + "\n", datetime, "\n" + scope);
    Associates("AWS4-HMAC-SHA256" + "\n" + datetime, "\n", scope);
    Associates("AWS4-HMAC-SHA256" + "\n", datetime', "\n" + scope);
    Associates("AWS4-HMAC-SHA256" + "\n" + datetime', "\n", scope);
    SameTail("AWS4-HMAC-SHA256" + "\n", datetime + ("\n" + scope), datetime' + ("\n" + scope));
    TailsTell(datetime, datetime', "\n" + scope);
  }

  lemma LastLinesTell(a: string, b: string, x: string, y: string)
    requires OneLine(x) && OneLine(y)
    ensures a + "\n" + x == b + "\n" + y <==> a == b && x == y
  {
    var p, q := a + "\n" + x, b + "\n" + y;
    if p == q {
      assert p[|a|] == '\n' && q[|b|] == '\n';
      assert forall i :: |a| < i < |p| ==> p[i] == x[i - |a| - 1];
      assert forall i :: |b| < i < |q| ==> q[i] == y[i - |b| - 1];
      assert |a| == |b|;
      HeadsTell(a + "\n", b + "\n", x, y);
      TailsTell(a, b, "\n");
    }
  }

  lemma MacsTell(c: Crypto, k: string, l: string, x: string, y: string)
    requires CollisionFree(c)
    ensures ToLower(c.hex(c.hmac(k, x))) == ToLower(c.hex(c.hmac(l, y))) <==> k == l && x == y
  {
  }

  lemma DigestsTell(c: Crypto, x: string, y: string)
    requires CollisionFree(c)
    ensures OneLine(c.sha256(x)) && OneLine(c.sha256(y)) && (c.sha256(x) == c.sha256(y) <==> x == y)
  {
  }

  lemma ClaimsTell(c: Crypto, secret: string, date: string, region: string, service: string, datetime: string, canonical: string,
                   secret': string, date': string, region': string, service': string, datetime': string, canonical': string)
    requires CollisionFree(c)
    ensures
      ToLower(c.hex(c.hmac(SigningKey(c, secret', date', region', service'),
                           ToSign(datetime', ScopeOf(date', region', service'), c.sha256(canonical')))))
      == ToLower(c.hex(c.hmac(Credentials(c, secret, date, region, service),
                              ToSign(datetime, ScopeOf(date, region, service), c.sha256(canonical)))))
      <==> secret == secret' && date == date' && region == region' && service == service'
           && datetime == datetime' && canonical == canonical'
  {
    var k, l := SigningKey(c, secret', date', region', service'), Credentials(c, secret, date, region, service);
    var x, y := c.sha256(canonical'), c.sha256(canonical);
    KeysTell(c, secret, date, region, service, secret', date', region', service');
    DigestsTell(c, canonical, canonical');
    TextsTell(datetime, datetime', ScopeOf(date, region, service), y, x);
    MacsTell(c, k, l, ToSign(datetime', ScopeOf(date', region', service'), x), ToSign(datetime, ScopeOf(date, region, service), y));
  }

  lemma VerifyServiceIs(c: Crypto, h: Request, body: string, secret: string, auth: Auth, service: string)
    ensures VerifyService(c, h, body, secret, auth, service) <==>
      ToLower(c.hex(c.hmac(
        SigningKey(c, secret, auth.dateScope, RegionOf(auth), ServiceOf(service)),
        ToSign(h.Get("X-Amz-Date"), ScopeOf(auth.dateScope, RegionOf(auth), ServiceOf(service)),
               c.sha256(CanonicalRequest(h, body, auth.signedHeaders, c.sha256))))))
      == ToLower(auth.signature)
  {
  }

  /** Without collisions, a signature that the client made is good for what the client signed, under the secret
      it was signed with, and for nothing else. */
  lemma GoodForOneRequest(s: Signer, c: Crypto, h: Request, body: string, secret: string, secret': string, auth: Auth, service: string)
    requires CollisionFree(c) && ToLower(auth.signature) == ToLower(s.Signature(c, secret))
    ensures VerifyService(c, h, body, secret', auth, service)
            <==> secret' == secret && IsSignedBy(s, c, h, body, auth, service)
  {
    SignatureOf(s, c, secret);
    VerifyServiceIs(c, h, body, secret', auth, service);
    ClaimsTell(c, secret, s.date, s.region, s.service, s.datetime, s.CanonicalString(c.sha256),
               secret', auth.dateScope, RegionOf(auth), ServiceOf(service), h.Get("X-Amz-Date"),
               CanonicalRequest(h, body, auth.signedHeaders, c.sha256));
  }

  // ----- A signed request is accepted -----

  /** Header names are tokens. */
  ghost predicate Tokens(names: seq<string>) {
    forall n :: n in names ==> forall i :: 0 <= i < |n| ==> !IsSpace(n[i]) && n[i] != ','
  }

  lemma {:induction false} JoinedTokens(names: seq<string>)
    requires Tokens(names)
    ensures forall i :: 0 <= i < |Join(names, ";")| ==> !IsSpace(Join(names, ";")[i]) && Join(names, ";")[i] != ','
  {
    if |names| == 1 {
      assert names[0] in names;
    } else if |names| > 1 {
      JoinedTokens(names[1..]);
      var rest := Join(names[1..], ";");
      assert names[0] in names;
      assert Join(names, ";") == names[0] + ";" + rest;
    }
  }

  ghost predicate PlainKey(accessKey: string, date: string, region: string) {
    && region != "" && accessKey != "" && Trimmed(accessKey)
    && '/' !in accessKey && '/' !in date && '/' !in region
    && ',' !in accessKey && ',' !in date && ',' !in region
  }

  /** What goes into the credential can be told apart again in the header. */
  ghost predicate PlainScope(s: Signer, accessKey: string)
    reads s
  {
    && (s.service == "s3" || s.service == "sts") && PlainKey(accessKey, s.date, s.region)
    && Tokens(s.signable) && s.signedHeaders == Join(s.signable, ";")
  }

  ghost predicate PlainSignature(signature: string) {
    signature != "" && ',' !in signature && Trimmed(signature)
  }

  lemma HeaderIsRead(s: Signer, accessKey: string, signature: string)
    requires PlainScope(s, accessKey) && PlainSignature(signature)
    ensures ParseAuth(s.AuthHeader(accessKey, signature)) ==
            Auth(accessKey, signature, s.signedHeaders, s.region, s.date, true)
  {
    JoinedTokens(s.signable);
    AuthorizationRoundTrip(accessKey, s.date, s.region, s.service, s.signedHeaders, signature);
  }

  /** The header `s` sends, read again. */
  function ReadAgain(s: Signer, c: Crypto, accessKey: string, secret: string): Auth
    reads s
  {
    ParseAuth(s.AuthHeader(accessKey, s.Signature(c, secret)))
  }

  ghost predicate WellSigned(s: Signer, raw: string, params: seq<Pair>, c: Crypto, accessKey: string, secret: string)
    reads s
  {
    && AsSigned(s, raw, params) && PlainScope(s, accessKey) && PlainSignature(s.Signature(c, secret))
    && "x-amz-date" in s.headers && s.headers["x-amz-date"] == s.datetime
  }

  lemma SentIsSignedBy(s: Signer, raw: string, params: seq<Pair>, c: Crypto, auth: Auth)
    requires AsSigned(s, raw, params) && "x-amz-date" in s.headers && s.headers["x-amz-date"] == s.datetime
    requires auth.signedHeaders == s.signedHeaders && auth.dateScope == s.date && auth.region == s.region != ""
    requires s.service != ""
    ensures IsSignedBy(s, c, Sent(s, raw), s.body, auth, s.service) <==> SidesAlike(s, raw, params)
  {
    SidesAgreeIff(s, raw, params, c.sha256);
    LowerDateName();
    assert Sent(s, raw).Get("X-Amz-Date") == s.datetime;
  }

  /** The parser recovers the access key, and the request that arrives is the one that was signed exactly if the
      two sides are alike. */
  lemma ReadAsSent(s: Signer, raw: string, params: seq<Pair>, c: Crypto, accessKey: string, secret: string)
    requires WellSigned(s, raw, params, c, accessKey, secret)
    ensures var auth := ReadAgain(s, c, accessKey, secret);
      && auth == Auth(accessKey, s.Signature(c, secret), s.signedHeaders, s.region, s.date, true)
      && (IsSignedBy(s, c, Sent(s, raw), s.body, auth, s.service) <==> SidesAlike(s, raw, params))
  {
    HeaderIsRead(s, accessKey, s.Signature(c, secret));
    SentIsSignedBy(s, raw, params, c, Auth(accessKey, s.Signature(c, secret), s.signedHeaders, s.region, s.date, true));
  }

  /** A request that the client signs and that arrives as it was signed is accepted by the server, if the two
      sides are alike: the parser recovers the access key, and with the secret of that key the signature is
      found good. */
  lemma SignedIsAccepted(s: Signer, raw: string, params: seq<Pair>, c: Crypto, accessKey: string, secret: string)
    requires WellSigned(s, raw, params, c, accessKey, secret) && SidesAlike(s, raw, params)
    ensures var auth := ReadAgain(s, c, accessKey, secret);
      auth.ok && auth.accessKey == accessKey && Verify(c, Sent(s, raw), s.body, secret, auth)
  {
    ReadAsSent(s, raw, params, c, accessKey, secret);
    OneSignatureIsGood(s, c, Sent(s, raw), s.body, secret, ReadAgain(s, c, accessKey, secret), s.service);
  }

  /** Without collisions it is accepted exactly if the server holds the same secret and the two sides are alike. */
  lemma AcceptedIff(s: Signer, raw: string, params: seq<Pair>, c: Crypto, accessKey: string, secret: string, secret': string)
    requires CollisionFree(c) && WellSigned(s, raw, params, c, accessKey, secret)
    ensures var auth := ReadAgain(s, c, accessKey, secret);
      && auth.ok && auth.accessKey == accessKey
      && (Verify(c, Sent(s, raw), s.body, secret', auth) <==> secret' == secret && SidesAlike(s, raw, params))
  {
    ReadAsSent(s, raw, params, c, accessKey, secret);
    var auth := ReadAgain(s, c, accessKey, secret);
    GoodForOneRequest(s, c, Sent(s, raw), s.body, secret, secret', auth, "s3");
    GoodForOneRequest(s, c, Sent(s, raw), s.body, secret, secret', auth, "sts");
  }

  /** The body is under the signature exactly if no hash of it is given in a header. */
  lemma BodyIsSignedIff(s: Signer, raw: string, params: seq<Pair>, c: Crypto, accessKey: string, secret: string, body: string)
    requires CollisionFree(c) && WellSigned(s, raw, params, c, accessKey, secret) && SidesAlike(s, raw, params)
    ensures Verify(c, Sent(s, raw), body, secret, ReadAgain(s, c, accessKey, secret))
            <==> body == s.body || ValueOf(s.headers, "x-amz-content-sha256") != ""
  {
    ReadAsSent(s, raw, params, c, accessKey, secret);
    var auth, h := ReadAgain(s, c, accessKey, secret), Sent(s, raw);
    GoodForOneRequest(s, c, h, body, secret, secret, auth, "s3");
    GoodForOneRequest(s, c, h, body, secret, secret, auth, "sts");
    BodiesTell(s, raw, c, auth.signedHeaders, body);
  }

  lemma BodiesTell(s: Signer, raw: string, c: Crypto, signedHeaders: string, body: string)
    requires CollisionFree(c)
    ensures CanonicalRequest(Sent(s, raw), body, signedHeaders, c.sha256) == CanonicalRequest(Sent(s, raw), s.body, signedHeaders, c.sha256)
            <==> body == s.body || ValueOf(s.headers, "x-amz-content-sha256") != ""
  {
    var h := Sent(s, raw);
    LowerPayloadName();
    var given := h.Get("X-Amz-Content-Sha256");
    assert given == ValueOf(s.headers, "x-amz-content-sha256");
    DigestsTell(c, body, s.body);
    PayloadsTell(h.verb, h.path, Canonical(raw), HeaderLines(h, SortStrings(Split(signedHeaders, ';'))), signedHeaders,
                 if given == "" then c.sha256(body) else given, if given == "" then c.sha256(s.body) else given);
  }

  lemma PayloadsTell(verb: string, path: string, q: string, headers: string, signed: string, payload: string, payload': string)
    ensures Assemble(verb, path, q, headers, signed, payload) == Assemble(verb, path, q, headers, signed, payload')
            <==> payload == payload'
  {
    SixLines(verb, path, q, headers, signed, payload);
    SixLines(verb, path, q, headers, signed, payload');
    JoinTwo(signed, payload, "\n");
    JoinTwo(signed, payload', "\n");
    SameTail(signed + "\n", payload, payload');
    var x, y := Join([signed, payload], "\n"), Join([signed, payload'], "\n");
    SameTail("\n", x, y);
    SameTail(headers, "\n" + x, "\n" + y);
    SameTail("\n", headers + ("\n" + x), headers + ("\n" + y));
    SameTail(q, "\n" + (headers + ("\n" + x)), "\n" + (headers + ("\n" + y)));
    SameTail("\n" + path + "\n", q + ("\n" + (headers + ("\n" + x))), q + ("\n" + (headers + ("\n" + y))));
    SameTail(verb, ("\n" + path + "\n") + (q + ("\n" + (headers + ("\n" + x)))),
             ("\n" + path + "\n") + (q + ("\n" + (headers + ("\n" + y)))));
  }

  lemma LowerDateName()
    ensures ToLower("X-Amz-Date") == "x-amz-date"
  {
    assert |"X-Amz-Date"| == |"x-amz-date"|;
  }

  // ----- From the caller's inputs -----

  ghost predicate PlainName(n: string) {
    forall i :: 0 <= i < |n| ==> LowerChar(n[i]) == n[i] && !IsSpace(n[i]) && n[i] != ',' && n[i] != ';'
  }

  lemma HashNameIsPlain()
    ensures PlainName(OwnNames().hash) && |OwnNames().hash| == 20
  {
  }

  lemma DateNameIsPlain()
    ensures PlainName(OwnNames().date) && |OwnNames().date| == 10
  {
  }

  lemma TokenNameIsPlain()
    ensures PlainName(OwnNames().token) && |OwnNames().token| == 20 && OwnNames().token[6] == 's'
  {
  }

  lemma HostIsPlain()
    ensures PlainName("host") && |OwnNames().host| == 4
  {
  }

  lemma UnsignedIsPlain()
    ensures OneLine(OwnNames().unsigned)
  {
    assert |OwnNames().unsigned| == 16;
  }

  /** Header names are lower-case tokens, and no value holds a line break. */
  ghost predicate PlainHeaders(headers: map<string, string>) {
    forall n :: n in headers ==> PlainName(n) && OneLine(headers[n])
  }

  lemma SignedMapIsPlain(ns: Names, given: map<string, string>, service: string, datetime: string, sessionToken: string, append: bool)
    requires PlainHeaders(given) && OneLine(datetime) && OneLine(sessionToken) && OneLine(ns.unsigned)
    requires PlainName(ns.hash) && PlainName(ns.date) && PlainName(ns.token)
    requires ns.host != ns.hash && ns.host != ns.date && ns.host != ns.token && ns.date != ns.token
    ensures var hs := SignedMap(ns, given, service, datetime, sessionToken, append);
      PlainHeaders(hs) && ns.host !in hs && ns.date in hs && hs[ns.date] == datetime
  {
  }

  lemma PlainNamesAre(names: seq<string>)
    requires forall n :: n in names ==> PlainName(n)
    ensures PlainNames(names) && Tokens(names)
  {
    forall n | n in names ensures ToLower(n) == n && '\n' !in n {}
  }

  /** A new signer's fields are as `AsSigned` describes them. */
  lemma NewIsAsSigned(s: Signer, raw: string, params: seq<Pair>, given: map<string, string>, sessionToken: string, append: bool, allHeaders: bool)
    requires ReadAs(raw, params) && OneLine(raw) && OneLine(s.host)
    requires PlainHeaders(given) && OneLine(s.datetime) && OneLine(sessionToken)
    requires s.headers == SignedMap(OwnNames(), given, s.service, s.datetime, sessionToken, append)
    requires forall n :: n in s.signable <==> n == "host" || (n in s.headers && (allHeaders || n !in UNSIGNABLE))
    requires Sorted(StringOrder(), s.signable) && s.signable != []
    requires s.signedHeaders == Join(s.signable, ";")
    requires s.canonicalHeaders == Join(ClientLines(s.headers, s.host, s.signable), "\n")
    requires s.encodedSearch == EncodedSearch(params, s.service == "s3")
    ensures AsSigned(s, raw, params) && Tokens(s.signable)
    ensures OwnNames().date in s.headers && s.headers[OwnNames().date] == s.datetime
  {
    HashNameIsPlain();
    DateNameIsPlain();
    TokenNameIsPlain();
    HostIsPlain();
    UnsignedIsPlain();
    SignedMapIsPlain(OwnNames(), given, s.service, s.datetime, sessionToken, append);
    PlainNamesAre(s.signable);
  }

  /** Nothing holds a line break, and the query text is read as `params`: what the platform sees to. */
  ghost predicate PlainInputs(host: string, raw: string, params: seq<Pair>, given: map<string, string>, datetime: string, sessionToken: string) {
    && ReadAs(raw, params) && OneLine(raw) && OneLine(host)
    && PlainHeaders(given) && OneLine(datetime) && OneLine(sessionToken)
  }

  /** What the caller must see to: a method in capitals, a query that both sides sign alike, and signed header
      values without runs of white space. `headers` are those that go out. */
  ghost predicate AlikeInputs(verb: string, raw: string, params: seq<Pair>, service: string, headers: map<string, string>, allHeaders: bool) {
    && ToUpper(verb) == verb && ParseQuery(raw).Some? && SignedAlike(params, service == "s3")
    && forall n :: n in headers && (allHeaders || n !in UNSIGNABLE) ==> Alike(headers[n])
  }

  /** The signer's service is one that the server knows, and what goes into the header can be told apart again. */
  ghost predicate PlainHeader(service: string, accessKey: string, date: string, region: string, signature: string) {
    (service == "s3" || service == "sts") && PlainKey(accessKey, date, region) && PlainSignature(signature)
  }

  /** What the server makes of a request and its header: it looks up the access key, accepts the request if the
      two sides are alike, and without collisions in no other case and only with the same secret. */
  ghost predicate AcceptedExactly(c: Crypto, sent: Request, body: string, accessKey: string, secret: string, auth: Auth, alike: bool) {
    && auth.ok && auth.accessKey == accessKey
    && (alike ==> Verify(c, sent, body, secret, auth))
    && (CollisionFree(c) ==> forall key :: Verify(c, sent, body, key, auth) <==> key == secret && alike)
  }

  lemma AcceptedOnceSigned(s: Signer, raw: string, params: seq<Pair>, c: Crypto, accessKey: string, secret: string, alike: bool)
    requires WellSigned(s, raw, params, c, accessKey, secret) && (alike <==> SidesAlike(s, raw, params))
    ensures AcceptedExactly(c, Sent(s, raw), s.body, accessKey, secret, ReadAgain(s, c, accessKey, secret), alike)
  {
    ReadAsSent(s, raw, params, c, accessKey, secret);
    if alike { SignedIsAccepted(s, raw, params, c, accessKey, secret); }
    if CollisionFree(c) {
      forall key { AcceptedIff(s, raw, params, c, accessKey, secret, key); }
    }
  }

  lemma AlikeWhenSigned(s: Signer, raw: string, params: seq<Pair>, allHeaders: bool)
    requires "host" !in s.headers
    requires forall n :: n in s.signable <==> n == "host" || (n in s.headers && (allHeaders || n !in UNSIGNABLE))
    ensures SidesAlike(s, raw, params) <==> AlikeInputs(s.verb, raw, params, s.service, s.headers, allHeaders)
  {
  }

  /** `sign`: the signer is made and its header written. */
  method Sign(verb: string, host: string, path: string, raw: string, params: seq<Pair>, body: string, given: map<string, string>,
              region: string, service: string, datetime: string, sessionToken: string, appendSessionToken: bool,
              allHeaders: bool, accessKey: string, secret: string, c: Crypto) returns (s: Signer, authorization: string)
    requires |datetime| >= 8
    ensures authorization == s.AuthHeader(accessKey, s.Signature(c, secret))
    ensures s.headers ==
      SignedMap(OwnNames(), given, service, datetime, sessionToken, appendSessionToken || service == "iotdevicegateway")
    ensures PlainInputs(host, raw, params, given, datetime, sessionToken)
      && PlainHeader(service, accessKey, datetime[..8], region, s.Signature(c, secret))
      ==> AcceptedExactly(c, Request(verb, path, raw, host, s.headers), body, accessKey, secret, ParseAuth(authorization),
                          AlikeInputs(verb, raw, params, service, s.headers, allHeaders))
  {
    s := new Signer(verb, host, path, params, body, given, region, service, datetime, sessionToken,
                    appendSessionToken, allHeaders);
    authorization := s.AuthHeader(accessKey, s.Signature(c, secret));
    if PlainInputs(host, raw, params, given, datetime, sessionToken)
       && PlainHeader(service, accessKey, datetime[..8], region, s.Signature(c, secret)) {
      NewIsAsSigned(s, raw, params, given, sessionToken, appendSessionToken || service == "iotdevicegateway", allHeaders);
      AlikeWhenSigned(s, raw, params, allHeaders);
      AcceptedOnceSigned(s, raw, params, c, accessKey, secret, AlikeInputs(verb, raw, params, service, s.headers, allHeaders));
    }
  }
}
