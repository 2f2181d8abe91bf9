/** The server's side of AWS Signature Version 4: the canonical request and the check of a signature.
    SHA-256 and HMAC-SHA256 are parameters. */
module ServerRequest {
  import opened Seqs
  import opened Text
  import opened CanonicalQuery
  import opened AuthHeaders

  function ToLower(s: string): string {
    seq(|s|, i requires 0 <= i < |s| => LowerChar(s[i]))
  }

  /** A received request; header names are in lower case, and `Host` is kept apart from the headers. */
  datatype Request = Request(verb: string, path: string, query: string, host: string, headers: map<string, string>)
  {
    function Get(name: string): string {
      if ToLower(name) in headers then headers[ToLower(name)] else ""
    }
  }

  function HeaderLine(h: Request, name: string): string {
    var val := TrimSpace(h.Get(name));
    ToLower(name) + ":" + (if ToLower(name) == "host" && val == "" then h.host else val) + "\n"
  }

  function HeaderLines(h: Request, names: seq<string>): string {
    if names == [] then "" else HeaderLine(h, names[0]) + HeaderLines(h, names[1..])
  }

  /** The six lines of "Create a canonical request" in AWS Signature Version 4. */
  function Assemble(verb: string, path: string, query: string, headers: string, signed: string, payload: string): string {
    Join([verb, path, query, headers, signed, payload], "\n")
  }

  function CanonicalRequest(h: Request, body: string, signedHeaders: string, sha256: string -> string): string {
    var given := h.Get("X-Amz-Content-Sha256");
    Assemble(h.verb, h.path, Canonical(h.query), HeaderLines(h, SortStrings(Split(signedHeaders, ';'))),
             signedHeaders, if given == "" then sha256(body) else given)
  }

  /** `canonicalRequest`. */
  method ComputeCanonicalRequest(h: Request, body: string, signedHeaders: string, sha256: string -> string) returns (r: string)
    ensures r == CanonicalRequest(h, body, signedHeaders, sha256)
  {
    var payloadHash := h.Get("X-Amz-Content-Sha256");
    if payloadHash == "" {
      payloadHash := sha256(body);
    }
    var canonHdr := WriteHeaders(h, SortStrings(Split(signedHeaders, ';')));
    var query := Compute(h.query);
    return Assemble(h.verb, h.path, query, canonHdr, signedHeaders, payloadHash);
  }

  method WriteHeaders(h: Request, headers: seq<string>) returns (canonHdr: string)
    ensures canonHdr == HeaderLines(h, headers)
  {
    canonHdr := "";
    for i := 0 to |headers|
      invariant canonHdr + HeaderLines(h, headers[i..]) == HeaderLines(h, headers)
    {
      assert headers[i..][1..] == headers[i + 1..];
      var line := WriteHeader(h, headers[i]);
      Associates(canonHdr, line, HeaderLines(h, headers[i + 1..]));
      canonHdr := canonHdr + line;
    }
    assert canonHdr == HeaderLines(h, headers);
  }

  method WriteHeader(h: Request, name: string) returns (line: string)
    ensures line == HeaderLine(h, name)
  {
    var val := TrimSpace(h.Get(name));
    if ToLower(name) == "host" && val == "" {
      val := h.host;
    }
    return ToLower(name) + ":" + val + "\n";
  }

  // ----- Checking a signature -----

  /** `sha256` gives the digest in hexadecimal digits; `hmac` takes the key first. */
  datatype Crypto = Crypto(sha256: string -> string, hmac: (string, string) -> string, hex: string -> string)

  function SigningKey(c: Crypto, secret: string, date: string, region: string, service: string): string {
    c.hmac(c.hmac(c.hmac(c.hmac("AWS4" + secret, date), region), service), "aws4_request")
  }

  function RegionOf(auth: Auth): string {
    if auth.region == "" then "us-east-1" else auth.region
  }

  function ServiceOf(service: string): string {
    if service == "" then "s3" else service
  }

  /** `VerifyService`. */
  predicate VerifyService(c: Crypto, h: Request, body: string, secret: string, auth: Auth, service: string) {
    var region, service := RegionOf(auth), ServiceOf(service);
    var hashed := c.sha256(CanonicalRequest(h, body, auth.signedHeaders, c.sha256));
    var scope := auth.dateScope + "/" + region + "/" + service + "/" + "aws4_request";
    var toSign := "AWS4-HMAC-SHA256" + "\n" + h.Get("X-Amz-Date") + "\n" + scope + "\n" + hashed;
    ToLower(c.hex(c.hmac(SigningKey(c, secret, auth.dateScope, region, service), toSign))) == ToLower(auth.signature)
  }

  /** `Verify`: the signature is good for one of the two services. */
  predicate Verify(c: Crypto, h: Request, body: string, secret: string, auth: Auth) {
    VerifyService(c, h, body, secret, auth, "s3") || VerifyService(c, h, body, secret, auth, "sts")
  }
}
