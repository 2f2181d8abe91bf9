/** The `Authorization` header: the client's printer and the server's parser. */
module AuthHeaders {
  import opened Text

  datatype Auth = Auth(accessKey: string, signature: string, signedHeaders: string, region: string, dateScope: string, ok: bool)

  const SCHEME := "AWS4-HMAC-SHA256 "

  /** What the client puts after `Credential=`: the access key and the scope of the signature. */
  function Credential(accessKey: string, date: string, region: string, service: string): string {
    accessKey + "/" + Join([date, region, service, "aws4_request"], "/")
  }

  /** `authHeader`. */
  function Header(accessKey: string, date: string, region: string, service: string, signedHeaders: string, signature: string): string {
    Join([
      SCHEME + "Credential=" + Credential(accessKey, date, region, service),
      "SignedHeaders=" + signedHeaders,
      "Signature=" + signature], ", ")
  }

  /** One `key=value` part. */
  function Field(part: string): map<string, string> {
    var p := TrimSpace(part);
    var eq := IndexByte(p, '=');
    if eq < 0 then map[] else map[p[..eq] := TrimSpace(p[eq + 1..])]
  }

  /** All parts; a later value of a key replaces an earlier one. */
  function Fields(parts: seq<string>): map<string, string> {
    if parts == [] then map[] else Fields(parts[..|parts| - 1]) + Field(parts[|parts| - 1])
  }

  lemma FieldsOfThree(x: string, y: string, z: string)
    ensures Fields([x, y, z]) == Field(x) + Field(y) + Field(z)
  {
    FieldsLast([], x);
    FieldsLast([x], y);
    FieldsLast([x, y], z);
    assert [] + [x] == [x] && [x] + [y] == [x, y] && [x, y] + [z] == [x, y, z];
    assert map[] + Field(x) == Field(x);
  }

  lemma FieldsLast(parts: seq<string>, x: string)
    ensures Fields(parts + [x]) == Fields(parts) + Field(x)
  {
    assert (parts + [x])[..|parts|] == parts;
  }

  function FieldOf(vals: map<string, string>, key: string): string {
    if key in vals then vals[key] else ""
  }

  /** The answer drawn from the fields of the header. */
  function Decide(vals: map<string, string>): Auth {
    var cs := Split(FieldOf(vals, "Credential"), '/');
    if |cs| < 5 then Auth("", "", "", "", "", false)
    else
      var signature := FieldOf(vals, "Signature");
      Auth(cs[0], signature, FieldOf(vals, "SignedHeaders"), cs[2], cs[1], cs[0] != "" && signature != "")
  }

  function ParseAuth(header: string): Auth {
    if !HasPrefix(header, SCHEME) then Auth("", "", "", "", "", false)
    else Decide(Fields(Split(header[|SCHEME|..], ',')))
  }

  /** What the header must hold to be accepted at all: the scheme, a credential of five parts with an access key, and
      a signature. A header that does not is refused, with or without a credential. */
  lemma OkIff(header: string)
    ensures
      var fields := Fields(Split(header[if |SCHEME| <= |header| then |SCHEME| else 0..], ','));
      ParseAuth(header).ok <==>
        && SCHEME <= header && "Credential" in fields && |Split(fields["Credential"], '/')| >= 5
        && Split(fields["Credential"], '/')[0] != "" && "Signature" in fields && fields["Signature"] != ""
  {
  }

  /** `ParseAuthorization`. */
  method ParseAuthorization(header: string) returns (r: Auth)
    ensures r == ParseAuth(header)
  {
    if !HasPrefix(header, SCHEME) {
      return Auth("", "", "", "", "", false);
    }
    var parts := Split(header[|SCHEME|..], ',');
    var vals := ReadFields(parts);
    var cs := Split(FieldOf(vals, "Credential"), '/');
    if |cs| < 5 {
      return Auth("", "", "", "", "", false);
    }
    var signature := FieldOf(vals, "Signature");
    return Auth(cs[0], signature, FieldOf(vals, "SignedHeaders"), cs[2], cs[1], cs[0] != "" && signature != "");
  }

  method ReadFields(parts: seq<string>) returns (vals: map<string, string>)
    ensures vals == Fields(parts)
  {
    vals := map[];
    for i := 0 to |parts|
      invariant vals == Fields(parts[..i])
    {
      assert parts[..i + 1][..i] == parts[..i];
      vals := PutField(vals, parts[i]);
    }
    assert parts[..|parts|] == parts;
  }

  method PutField(vals: map<string, string>, part: string) returns (r: map<string, string>)
    ensures r == vals + Field(part)
  {
    var p := TrimSpace(part);
    var eq := IndexByte(p, '=');
    r := vals;
    if eq >= 0 {
      r := vals[p[..eq] := TrimSpace(p[eq + 1..])];
    }
  }

  lemma TrimAround(name: string, value: string)
    requires name != "" && !IsSpace(name[0]) && Trimmed(value)
    ensures TrimSpace(name + "=" + value) == name + "=" + value
    ensures TrimSpace(" " + (name + "=" + value)) == name + "=" + value
  {
    var s := name + "=" + value;
    assert s[0] == name[0];
    assert s[|s| - 1] == if value == "" then '=' else value[|value| - 1];
    TrimmedIsFixed(s);
  }

  lemma FieldOfPart(name: string, value: string)
    requires name != "" && !IsSpace(name[0]) && '=' !in name && Trimmed(value)
    ensures Field(name + "=" + value) == map[name := value]
    ensures Field(" " + (name + "=" + value)) == map[name := value]
  {
    TrimAround(name, value);
    CutAtEquals(name, value);
    TrimmedIsFixed(value);
  }

  lemma CredentialSplits(accessKey: string, date: string, region: string, service: string)
    requires '/' !in accessKey && '/' !in date && '/' !in region && '/' !in service
    ensures Split(Credential(accessKey, date, region, service), '/') == [accessKey, date, region, service, "aws4_request"]
  {
    var rest := [date, region, service, "aws4_request"];
    JoinMore(accessKey, rest, "/");
    forall p | p in [accessKey] + rest ensures '/' !in p {
      assert p == accessKey || p == date || p == region || p == service || p == "aws4_request";
    }
    SplitJoin([accessKey] + rest, '/');
  }

  lemma CredentialIsPlain(accessKey: string, date: string, region: string, service: string)
    requires ',' !in accessKey && ',' !in date && ',' !in region && ',' !in service
    requires accessKey != "" && Trimmed(accessKey)
    ensures ',' !in Credential(accessKey, date, region, service)
    ensures Trimmed(Credential(accessKey, date, region, service))
  {
    var cred := Credential(accessKey, date, region, service);
    var tail := "/aws4_request";
    JoinMore(date, [region, service, "aws4_request"], "/");
    assert [date] + [region, service, "aws4_request"] == [date, region, service, "aws4_request"];
    JoinMore(region, [service, "aws4_request"], "/");
    assert [region] + [service, "aws4_request"] == [region, service, "aws4_request"];
    JoinTwo(service, "aws4_request", "/");
    var front := accessKey + "/" + date + "/" + region + "/" + service;
    assert cred == front + "/" + "aws4_request";
    assert cred[0] == accessKey[0];
    assert cred[|cred| - 1] == "aws4_request"[11] == 't';
  }

  /** The header without its scheme, cut at the commas. */
  lemma PartsSplit(a: string, b: string, c: string)
    requires ',' !in a && ',' !in b && ',' !in c
    ensures Split(Join([a, b, c], ", "), ',') == [a, " " + b, " " + c]
  {
    var parts := [a, " " + b, " " + c];
    JoinMore(a, [b, c], ", ");
    assert [a] + [b, c] == [a, b, c];
    JoinTwo(b, c, ", ");
    JoinMore(a, [" " + b, " " + c], ",");
    assert [a] + [" " + b, " " + c] == parts;
    JoinTwo(" " + b, " " + c, ",");
    assert ", " == "," + " ";
    assert a + ", " + (b + ", " + c) == a + "," + (" " + b + "," + (" " + c));
    assert ["," [0]] == ",";
    forall p | p in parts ensures ',' !in p {
      assert p == a || p == " " + b || p == " " + c;
    }
    SplitJoin(parts, ',');
  }

  lemma SchemeStrips(scheme: string, a: string, b: string, c: string)
    ensures HasPrefix(Join([scheme + a, b, c], ", "), scheme)
    ensures Join([scheme + a, b, c], ", ")[|scheme|..] == Join([a, b, c], ", ")
  {
    JoinMore(scheme + a, [b, c], ", ");
    assert [scheme + a] + [b, c] == [scheme + a, b, c];
    JoinMore(a, [b, c], ", ");
    assert [a] + [b, c] == [a, b, c];
    var tail := Join([b, c], ", ");
    assert scheme + a + ", " + tail == scheme + (a + ", " + tail);
  }

  lemma FieldsRead(cred: string, signedHeaders: string, signature: string)
    requires Trimmed(cred) && Trimmed(signedHeaders) && Trimmed(signature)
    ensures Fields(["Credential" + "=" + cred, " " + ("SignedHeaders" + "=" + signedHeaders), " " + ("Signature" + "=" + signature)])
            == map["Credential" := cred] + map["SignedHeaders" := signedHeaders] + map["Signature" := signature]
  {
    FieldOfPart("Credential", cred);
    FieldOfPart("SignedHeaders", signedHeaders);
    FieldOfPart("Signature", signature);
    FieldsOfThree("Credential" + "=" + cred, " " + ("SignedHeaders" + "=" + signedHeaders), " " + ("Signature" + "=" + signature));
  }

  lemma DecidesWell(cred: string, signedHeaders: string, signature: string, cs: seq<string>)
    requires Split(cred, '/') == cs && |cs| == 5
    ensures Decide(map["Credential" := cred] + map["SignedHeaders" := signedHeaders] + map["Signature" := signature])
            == Auth(cs[0], signature, signedHeaders, cs[2], cs[1], cs[0] != "" && signature != "")
  {
    assert |"Credential"| == 10 && |"SignedHeaders"| == 13 && |"Signature"| == 9;
  }

  /** The server's parser recovers what the client's header was made of. */
  lemma AuthorizationRoundTrip(accessKey: string, date: string, region: string, service: string,
                               signedHeaders: string, signature: string)
    requires '/' !in accessKey && '/' !in date && '/' !in region && '/' !in service
    requires ',' !in accessKey && ',' !in date && ',' !in region && ',' !in service
    requires ',' !in signedHeaders && ',' !in signature
    requires Trimmed(accessKey) && Trimmed(signedHeaders) && Trimmed(signature)
    requires accessKey != "" && signature != ""
    ensures ParseAuth(Header(accessKey, date, region, service, signedHeaders, signature))
            == Auth(accessKey, signature, signedHeaders, region, date, true)
  {
    var cred := Credential(accessKey, date, region, service);
    CredentialSplits(accessKey, date, region, service);
    CredentialIsPlain(accessKey, date, region, service);
    HeaderReads(cred, signedHeaders, signature);
    DecidesWell(cred, signedHeaders, signature, [accessKey, date, region, service, "aws4_request"]);
  }

  lemma HeaderReads(cred: string, signedHeaders: string, signature: string)
    requires ',' !in cred && ',' !in signedHeaders && ',' !in signature
    requires Trimmed(cred) && Trimmed(signedHeaders) && Trimmed(signature)
    ensures ParseAuth(Join([SCHEME + "Credential=" + cred, "SignedHeaders=" + signedHeaders, "Signature=" + signature], ", "))
            == Decide(map["Credential" := cred] + map["SignedHeaders" := signedHeaders] + map["Signature" := signature])
  {
    var a, b, c := "Credential" + "=" + cred, "SignedHeaders" + "=" + signedHeaders, "Signature" + "=" + signature;
    assert SCHEME + "Credential=" + cred == SCHEME + a;
    assert "SignedHeaders=" + signedHeaders == b && "Signature=" + signature == c;
    SchemeStrips(SCHEME, a, b, c);
    PartsSplit(a, b, c);
    FieldsRead(cred, signedHeaders, signature);
  }
}
