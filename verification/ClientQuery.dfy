/** The query string that the browser client signs, and when it is the server's canonical query. */
module ClientQuery {
  import opened Results
  import opened Sorting
  import opened Text
  import opened Url
  import opened CanonicalQuery

  /** `encodeRfc3986(encodeURIComponent(s))` on ASCII text: everything but the unreserved characters is
      percent-encoded, the space included. */
  function ClientEscape(s: string): string {
    if s == "" then "" else (if Unreserved(s[0]) then [s[0]] else Percent(s[0])) + ClientEscape(s[1..])
  }

  predicate SeenBefore(ps: seq<Pair>, k: string) {
    exists i :: 0 <= i < |ps| && ps[i].k == k
  }

  /** The parameters that are signed: none without a name and, for S3, only the first of each name. */
  function Kept(ps: seq<Pair>, s3: bool): seq<Pair> {
    if ps == [] then []
    else
      var last := ps[|ps| - 1];
      var rest := Kept(ps[..|ps| - 1], s3);
      if last.k == "" || (s3 && SeenBefore(ps[..|ps| - 1], last.k)) then rest else rest + [last]
  }

  function EscapeAll(ps: seq<Pair>): seq<Pair> {
    if ps == [] then [] else [Pair(ClientEscape(ps[0].k), ClientEscape(ps[0].v))] + EscapeAll(ps[1..])
  }

  function JoinPairs(ps: seq<Pair>): seq<string> {
    if ps == [] then [] else [ps[0].k + "=" + ps[0].v] + JoinPairs(ps[1..])
  }

  function SearchOf(kept: seq<Pair>): string {
    Join(JoinPairs(Sort(PairOrder(), EscapeAll(kept))), "&")
  }

  function EncodedSearch(params: seq<Pair>, s3: bool): string {
    SearchOf(Kept(params, s3))
  }

  /** The filter over the query parameters, with its set of keys seen. */
  method KeepParams(params: seq<Pair>, s3: bool) returns (kept: seq<Pair>)
    ensures kept == Kept(params, s3)
  {
    kept := [];
    var seen: set<string> := {};
    for i := 0 to |params|
      invariant kept == Kept(params[..i], s3)
      invariant s3 ==> forall k :: k in seen <==> k != "" && SeenBefore(params[..i], k)
    {
      var p := params[i];
      assert params[..i + 1][..i] == params[..i];
      forall k ensures SeenBefore(params[..i + 1], k) <==> SeenBefore(params[..i], k) || k == p.k {
        SeenGrows(params, i, k);
      }
      if p.k == "" {
        // no empty keys
      } else if s3 && p.k in seen {
        // only the first value counts
      } else {
        seen := if s3 then seen + {p.k} else seen;
        kept := kept + [p];
      }
    }
    assert params[..|params|] == params;
  }

  /** Of each name all values are kept, in order; of S3 the first alone; of the empty name none. */
  lemma {:induction false} KeptValues(ps: seq<Pair>, s3: bool, k: string)
    ensures var all := ValuesOf(ps, k);
      ValuesOf(Kept(ps, s3), k) == if k == "" then [] else if s3 && |all| > 1 then all[..1] else all
  {
    if ps != [] {
      var front, last := ps[..|ps| - 1], ps[|ps| - 1];
      KeptValues(front, s3, k);
      assert ps == front + [last];
      ValuesAppend(front, last, k);
      ValuesAppend(Kept(front, s3), last, k);
      SeenIff(front, last.k);
    }
  }

  lemma {:induction false} SeenIff(ps: seq<Pair>, k: string)
    ensures SeenBefore(ps, k) <==> ValuesOf(ps, k) != []
  {
    if ps != [] {
      SeenIff(ps[1..], k);
      if SeenBefore(ps, k) && ps[0].k != k {
        var i :| 0 <= i < |ps| && ps[i].k == k;
        assert ps[1..][i - 1].k == k;
      }
      if SeenBefore(ps[1..], k) {
        var i :| 0 <= i < |ps[1..]| && ps[1..][i].k == k;
        assert ps[i + 1].k == k;
      }
    }
  }

  lemma SeenGrows(ps: seq<Pair>, i: nat, k: string)
    requires i < |ps|
    ensures SeenBefore(ps[..i + 1], k) <==> SeenBefore(ps[..i], k) || k == ps[i].k
  {
    if k == ps[i].k { assert ps[..i + 1][i].k == k; }
    if j :| 0 <= j < i && ps[..i][j].k == k { assert ps[..i + 1][j].k == k; }
  }

  // ----- Escaping on the two sides -----

  lemma {:induction false} ClientEscapeFixed(s: string)
    requires AllUnreserved(s)
    ensures ClientEscape(s) == s
  {
    if s != "" {
      ClientEscapeFixed(s[1..]);
      assert s == [s[0]] + s[1..];
    }
  }

  lemma {:induction false} ClientEscapeReads(s: string)
    requires Bytes(s)
    ensures QueryUnescape(ClientEscape(s)) == Some(s)
  {
    if s != "" {
      var c, rest := s[0], ClientEscape(s[1..]);
      ClientEscapeReads(s[1..]);
      if Unreserved(c) { EscapedCharReads(c, rest, s[1..]); } else { PercentReads(c, rest, s[1..]); }
      assert s == [c] + s[1..];
    }
  }

  lemma ClientEscapeInjective(a: string, b: string)
    requires Bytes(a) && Bytes(b) && ClientEscape(a) == ClientEscape(b)
    ensures a == b
  {
    ClientEscapeReads(a);
    ClientEscapeReads(b);
  }

  lemma {:induction false} ClientEscapeIsPlain(s: string)
    requires Bytes(s)
    ensures '&' !in ClientEscape(s) && '=' !in ClientEscape(s) && '+' !in ClientEscape(s)
    ensures ';' !in ClientEscape(s) && '\n' !in ClientEscape(s)
  {
    if s != "" { ClientEscapeIsPlain(s[1..]); }
  }

  lemma {:induction false} SpaceShows(s: string)
    requires Bytes(s)
    ensures ' ' in s <==> '+' in QueryEscape(s)
  {
    if s != "" {
      SpaceShows(s[1..]);
      assert s == [s[0]] + s[1..];
    }
  }

  /** The space is the only character that the two sides escape differently. */
  lemma {:induction false} EscapesAgreeIff(s: string)
    requires Bytes(s)
    ensures ClientEscape(s) == QueryEscape(s) <==> ' ' !in s
  {
    SpaceShows(s);
    ClientEscapeIsPlain(s);
    if ' ' !in s { SpacelessAgrees(s); }
  }

  lemma {:induction false} SpacelessAgrees(s: string)
    requires Bytes(s) && ' ' !in s
    ensures ClientEscape(s) == QueryEscape(s)
  {
    if s != "" { SpacelessAgrees(s[1..]); }
  }

  // ----- When the two sides agree -----

  ghost predicate DistinctNames(ps: seq<Pair>) {
    forall i, j :: 0 <= i < j < |ps| ==> ps[i].k != ps[j].k
  }

  /** The client drops none of the parameters. */
  ghost predicate AllKept(ps: seq<Pair>, s3: bool) {
    (forall i :: 0 <= i < |ps| ==> ps[i].k != "") && (s3 ==> DistinctNames(ps))
  }

  ghost predicate NoSpaces(ps: seq<Pair>) {
    forall p :: p in ps ==> ' ' !in p.k && ' ' !in p.v
  }

  function Escaped(p: Pair): Pair {
    Pair(ClientEscape(p.k), ClientEscape(p.v))
  }

  /** Escaping does not change which of two parameters comes first. */
  ghost predicate OrderKept(ps: seq<Pair>) {
    forall p, q :: p in ps && q in ps ==> (PairLe(p, q) <==> PairLe(Escaped(p), Escaped(q)))
  }

  ghost predicate SignedAlike(ps: seq<Pair>, s3: bool) {
    AllKept(ps, s3) && NoSpaces(ps) && OrderKept(ps)
  }

  lemma {:induction false} KeptIff(ps: seq<Pair>, s3: bool)
    ensures |Kept(ps, s3)| <= |ps| && (|Kept(ps, s3)| == |ps| <==> AllKept(ps, s3))
    ensures AllKept(ps, s3) ==> Kept(ps, s3) == ps
    ensures forall p :: p in Kept(ps, s3) ==> p in ps
  {
    if ps != [] {
      var before, last := ps[..|ps| - 1], ps[|ps| - 1];
      KeptIff(before, s3);
      AllKeptStep(ps, s3);
      assert ps == before + [last];
    }
  }

  lemma AllKeptStep(ps: seq<Pair>, s3: bool)
    requires ps != []
    ensures var before, last := ps[..|ps| - 1], ps[|ps| - 1];
      AllKept(ps, s3) <==> AllKept(before, s3) && last.k != "" && !(s3 && SeenBefore(before, last.k))
  {
    var before := ps[..|ps| - 1];
    forall i | 0 <= i < |before| ensures before[i] == ps[i] {}
    if AllKept(ps, s3) {
      assert forall i, j :: 0 <= i < j < |before| && s3 ==> ps[i].k != ps[j].k;
    }
  }

  lemma {:induction false} EscapeAllAt(ps: seq<Pair>)
    ensures |EscapeAll(ps)| == |ps| && forall i :: 0 <= i < |ps| ==> EscapeAll(ps)[i] == Escaped(ps[i])
  {
    if ps != [] { EscapeAllAt(ps[1..]); }
  }

  lemma {:induction false} JoinPairsAt(ps: seq<Pair>)
    ensures |JoinPairs(ps)| == |ps| && forall i :: 0 <= i < |ps| ==> JoinPairs(ps)[i] == ps[i].k + "=" + ps[i].v
  {
    if ps != [] { JoinPairsAt(ps[1..]); }
  }

  lemma {:induction false} InsertEscapes(x: Pair, ps: seq<Pair>)
    requires OrderKept([x] + ps)
    ensures Insert(PairOrder(), Escaped(x), EscapeAll(ps)) == EscapeAll(Insert(PairOrder(), x, ps))
  {
    EscapeAllAt(ps);
    assert x in [x] + ps;
    if ps == [] {
      assert ([x] + ps)[1..] == ps;
    } else {
      assert ps[0] in [x] + ps;
      if PairLe(x, ps[0]) {
        assert ([x] + ps)[1..] == ps;
      } else {
        forall p | p in [x] + ps[1..] ensures p in [x] + ps {}
        InsertEscapes(x, ps[1..]);
        var rest := Insert(PairOrder(), x, ps[1..]);
        assert ([ps[0]] + rest)[1..] == rest;
        assert EscapeAll(ps)[1..] == EscapeAll(ps[1..]);
      }
    }
  }

  lemma {:induction false} SortEscapes(ps: seq<Pair>)
    requires OrderKept(ps)
    ensures Sort(PairOrder(), EscapeAll(ps)) == EscapeAll(Sort(PairOrder(), ps))
  {
    if ps != [] {
      var tail := Sort(PairOrder(), ps[1..]);
      forall p | p in ps[1..] ensures p in ps {}
      SortEscapes(ps[1..]);
      SortKeepsMembers(ps[1..]);
      forall p | p in [ps[0]] + tail ensures p in ps {}
      InsertEscapes(ps[0], tail);
      assert EscapeAll(ps)[1..] == EscapeAll(ps[1..]);
    }
  }

  lemma SortKeepsMembers(ps: seq<Pair>)
    ensures |Sort(PairOrder(), ps)| == |ps| && forall p :: p in Sort(PairOrder(), ps) <==> p in ps
  {
    SortPermutes(PairOrder(), ps);
    forall p ensures p in Sort(PairOrder(), ps) <==> p in ps {
      assert p in Sort(PairOrder(), ps) <==> p in multiset(Sort(PairOrder(), ps));
      assert p in ps <==> p in multiset(ps);
    }
  }

  lemma AlikeMeansSame(params: seq<Pair>)
    requires PairBytes(params) && NoSpaces(params) && OrderKept(params)
    ensures JoinPairs(Sort(PairOrder(), EscapeAll(params))) == ShowAll(Sort(PairOrder(), params))
  {
    var sorted := Sort(PairOrder(), params);
    SortEscapes(params);
    SortKeepsMembers(params);
    EscapeAllAt(sorted);
    JoinPairsAt(EscapeAll(sorted));
    ShowAllAt(sorted);
    forall i | 0 <= i < |sorted| ensures JoinPairs(EscapeAll(sorted))[i] == ShowAll(sorted)[i] {
      assert sorted[i] in params;
      SpacelessAgrees(sorted[i].k);
      SpacelessAgrees(sorted[i].v);
    }
  }

  /** The two sorted lists, position by position. */
  ghost predicate Matched(client: seq<Pair>, server: seq<Pair>) {
    |client| == |server| && forall i :: 0 <= i < |client| ==> client[i] == Escaped(server[i])
  }

  lemma PartsMatch(c: Pair, p: Pair, q: Pair)
    requires c == Escaped(q) && Bytes(q.k) && Bytes(q.v) && Bytes(p.k) && Bytes(p.v)
    requires c.k + "=" + c.v == Show(p)
    ensures c == Escaped(p) && ' ' !in p.k && ' ' !in p.v
  {
    ClientEscapeIsPlain(q.k);
    ClientEscapeIsPlain(q.v);
    EscapeIsPlain(p.k);
    CutAtEquals(c.k, c.v);
    CutAtEquals(QueryEscape(p.k), QueryEscape(p.v));
    SpaceShows(p.k);
    SpaceShows(p.v);
    SpacelessAgrees(p.k);
    SpacelessAgrees(p.v);
  }

  lemma SameMeansMatched(params: seq<Pair>)
    requires PairBytes(params)
    requires JoinPairs(Sort(PairOrder(), EscapeAll(params))) == ShowAll(Sort(PairOrder(), params))
    ensures Matched(Sort(PairOrder(), EscapeAll(params)), Sort(PairOrder(), params)) && NoSpaces(params)
  {
    var client, server := Sort(PairOrder(), EscapeAll(params)), Sort(PairOrder(), params);
    JoinPairsAt(client);
    ShowAllAt(server);
    EscapeAllAt(params);
    SortKeepsMembers(params);
    SortKeepsMembers(EscapeAll(params));
    forall i | 0 <= i < |client|
      ensures client[i] == Escaped(server[i]) && ' ' !in server[i].k && ' ' !in server[i].v
    {
      assert client[i] in EscapeAll(params) && server[i] in params;
      var m :| 0 <= m < |params| && EscapeAll(params)[m] == client[i];
      PartsMatch(client[i], server[i], params[m]);
    }
  }

  lemma MatchedMeansKept(params: seq<Pair>)
    requires PairBytes(params)
    requires Matched(Sort(PairOrder(), EscapeAll(params)), Sort(PairOrder(), params))
    ensures OrderKept(params)
  {
    var client, server := Sort(PairOrder(), EscapeAll(params)), Sort(PairOrder(), params);
    PairsTotallyOrdered();
    SortSorted(PairOrder(), params);
    SortSorted(PairOrder(), EscapeAll(params));
    SortKeepsMembers(params);
    forall p, q | p in params && q in params ensures PairLe(p, q) <==> PairLe(Escaped(p), Escaped(q)) {
      assert PairOrder()(p, p) && PairOrder()(Escaped(p), Escaped(p));
      if p != q { OrderedAlike(client, server, p, q); }
    }
  }

  lemma OrderedAlike(client: seq<Pair>, server: seq<Pair>, p: Pair, q: Pair)
    requires TotalOrder(PairOrder())
    requires Sorted(PairOrder(), client) && Sorted(PairOrder(), server) && Matched(client, server)
    requires p in server && q in server && p != q && PairBytes([p, q])
    ensures PairLe(p, q) <==> PairLe(Escaped(p), Escaped(q))
  {
    var i :| 0 <= i < |server| && server[i] == p;
    var j :| 0 <= j < |server| && server[j] == q;
    assert [p, q][0] == p && [p, q][1] == q;
    if i < j {
      assert PairOrder()(server[i], server[j]) && PairOrder()(client[i], client[j]);
    } else {
      assert PairOrder()(server[j], server[i]) && PairOrder()(client[j], client[i]);
      OnlyOneWay(q, p);
    }
  }

  lemma OnlyOneWay(p: Pair, q: Pair)
    requires TotalOrder(PairOrder()) && Bytes(p.k) && Bytes(p.v) && Bytes(q.k) && Bytes(q.v)
    requires p != q && PairOrder()(p, q) && PairOrder()(Escaped(p), Escaped(q))
    ensures !PairLe(q, p) && !PairLe(Escaped(q), Escaped(p))
  {
    assert PairLe(q, p) ==> PairOrder()(q, p);
    if PairLe(Escaped(q), Escaped(p)) {
      assert PairOrder()(Escaped(q), Escaped(p));
      ClientEscapeInjective(p.k, q.k);
      ClientEscapeInjective(p.v, q.v);
    }
  }

  /** `params` is what the client reads in the query text `raw`: what the server reads, where the server can read
      it. The client is lenient about the rest. */
  ghost predicate ReadAs(raw: string, params: seq<Pair>) {
    PairBytes(params) && (ParseQuery(raw).Some? ==> ParseQuery(raw).value == params)
  }

  /** The client's search string is the server's canonical query exactly when the query is well formed, the client
      drops no parameter, no name or value holds a space, and escaping leaves the order alone. */
  lemma QueriesAgreeIff(raw: string, params: seq<Pair>, s3: bool)
    requires ReadAs(raw, params)
    ensures EncodedSearch(params, s3) == Canonical(raw) <==> ParseQuery(raw).Some? && SignedAlike(params, s3)
  {
    KeptIff(params, s3);
    if ParseQuery(raw).None? {
      SearchParses(params, s3);
    } else {
      var kept := Kept(params, s3);
      KeptIsBytes(params, s3);
      JoinedTell(kept, params);
      JoinPairsAt(Sort(PairOrder(), EscapeAll(kept)));
      SortKeepsMembers(EscapeAll(kept));
      EscapeAllAt(kept);
      ShowAllAt(Sort(PairOrder(), params));
      SortKeepsMembers(params);
      if AllKept(params, s3) { KeptQueriesAgreeIff(params); }
    }
  }

  lemma KeptQueriesAgreeIff(params: seq<Pair>)
    requires PairBytes(params)
    ensures JoinPairs(Sort(PairOrder(), EscapeAll(params))) == ShowAll(Sort(PairOrder(), params))
            <==> NoSpaces(params) && OrderKept(params)
  {
    if NoSpaces(params) && OrderKept(params) {
      AlikeMeansSame(params);
    } else if JoinPairs(Sort(PairOrder(), EscapeAll(params))) == ShowAll(Sort(PairOrder(), params)) {
      SameMeansMatched(params);
      MatchedMeansKept(params);
    }
  }

  lemma KeptIsBytes(params: seq<Pair>, s3: bool)
    requires PairBytes(params)
    ensures PairBytes(Kept(params, s3))
  {
    KeptIff(params, s3);
    forall i | 0 <= i < |Kept(params, s3)| ensures Bytes(Kept(params, s3)[i].k) && Bytes(Kept(params, s3)[i].v) {
      assert Kept(params, s3)[i] in params;
    }
  }

  /** Every part of the client's search string is an escaped name, the equals sign and an escaped value. */
  lemma ClientParts(kept: seq<Pair>, part: string) returns (p: Pair)
    requires PairBytes(kept) && part in JoinPairs(Sort(PairOrder(), EscapeAll(kept)))
    ensures p in kept && part == ClientEscape(p.k) + "=" + ClientEscape(p.v) && '&' !in part && ';' !in part && '\n' !in part
  {
    var cs := Sort(PairOrder(), EscapeAll(kept));
    JoinPairsAt(cs);
    EscapeAllAt(kept);
    SortKeepsMembers(EscapeAll(kept));
    var i :| 0 <= i < |cs| && JoinPairs(cs)[i] == part;
    assert cs[i] in EscapeAll(kept);
    var m :| 0 <= m < |kept| && EscapeAll(kept)[m] == cs[i];
    p := kept[m];
    ClientEscapeIsPlain(p.k);
    ClientEscapeIsPlain(p.v);
  }

  lemma ServerParts(params: seq<Pair>, part: string)
    requires PairBytes(params) && part in ShowAll(Sort(PairOrder(), params))
    ensures '&' !in part && part != ""
  {
    var ss := Sort(PairOrder(), params);
    ShowAllAt(ss);
    SortKeepsMembers(params);
    var i :| 0 <= i < |ss| && ShowAll(ss)[i] == part;
    assert ss[i] in params;
    EscapeIsPlain(ss[i].k);
    EscapeIsPlain(ss[i].v);
  }

  /** No part of either string holds the separator, so the strings tell the parts. */
  lemma JoinedTell(kept: seq<Pair>, params: seq<Pair>)
    requires PairBytes(kept) && PairBytes(params)
    ensures var client, server := JoinPairs(Sort(PairOrder(), EscapeAll(kept))), ShowAll(Sort(PairOrder(), params));
      Join(client, "&") == Join(server, "&") <==> client == server
  {
    var client, server := JoinPairs(Sort(PairOrder(), EscapeAll(kept))), ShowAll(Sort(PairOrder(), params));
    forall part | part in client ensures '&' !in part && part != "" { var p := ClientParts(kept, part); }
    forall part | part in server ensures '&' !in part && part != "" { ServerParts(params, part); }
    JoinsTell(client, server);
  }

  lemma JoinsTell(a: seq<string>, b: seq<string>)
    requires forall part :: part in a || part in b ==> '&' !in part && part != ""
    ensures Join(a, "&") == Join(b, "&") <==> a == b
  {
    if a != [] { SplitJoin(a, '&'); }
    if b != [] { SplitJoin(b, '&'); }
    assert a != [] ==> a[0] in a && a[0] != "" && (|a| == 1 ==> Join(a, "&") == a[0]);
    assert b != [] ==> b[0] in b && b[0] != "" && (|b| == 1 ==> Join(b, "&") == b[0]);
    if a == [] && b != [] { SplitNone("", '&'); }
    if b == [] && a != [] { SplitNone("", '&'); }
  }

  /** The client's search string is always well formed. */
  lemma SearchParses(params: seq<Pair>, s3: bool)
    requires PairBytes(params)
    ensures ParseQuery(EncodedSearch(params, s3)).Some? && '\n' !in EncodedSearch(params, s3)
  {
    var kept := Kept(params, s3);
    var parts := JoinPairs(Sort(PairOrder(), EscapeAll(kept)));
    KeptIsBytes(params, s3);
    forall part | part in parts ensures Segment(part).Some? && '&' !in part && '\n' !in part {
      var p := ClientParts(kept, part);
      KeptIff(params, s3);
      assert p in params;
      ClientEscapeIsPlain(p.k);
      CutAtEquals(ClientEscape(p.k), ClientEscape(p.v));
      ClientEscapeReads(p.k);
      ClientEscapeReads(p.v);
    }
    if parts != [] {
      SplitJoin(parts, '&');
      JoinHasNo(parts, '\n');
    } else {
      SplitNone("", '&');
    }
  }

  lemma {:induction false} JoinHasNo(parts: seq<string>, c: char)
    requires c != '&' && forall part :: part in parts ==> c !in part
    ensures c !in Join(parts, "&")
  {
    if |parts| == 1 {
      assert parts[0] in parts;
    } else if parts != [] {
      assert parts[0] in parts;
      JoinHasNo(parts[1..], c);
    }
  }

  // ----- Consequences -----

  /** Escaping the values of one name keeps their order. */
  ghost predicate ValuesInOrder(ps: seq<Pair>) {
    forall p, q :: p in ps && q in ps && p.k == q.k ==> (Le(p.v, q.v) <==> Le(ClientEscape(p.v), ClientEscape(q.v)))
  }

  /** For names over the unreserved characters, order is a matter of repeated names only; in particular, if names
      are distinct and not empty, the sides agree exactly if no value holds a space. */
  lemma UnreservedNamesAgreeIff(raw: string, params: seq<Pair>, s3: bool)
    requires ParseQuery(raw) == Some(params) && PairBytes(params)
    requires forall p :: p in params ==> AllUnreserved(p.k)
    ensures EncodedSearch(params, s3) == Canonical(raw) <==>
      AllKept(params, s3) && ValuesInOrder(params) && forall p :: p in params ==> ' ' !in p.v
    ensures DistinctNames(params) ==> ValuesInOrder(params)
  {
    QueriesAgreeIff(raw, params, s3);
    OrderIsOfValues(params);
    UnreservedHaveNoSpace(params);
    if DistinctNames(params) {
      forall p, q | p in params && q in params && p.k == q.k
        ensures Le(p.v, q.v) <==> Le(ClientEscape(p.v), ClientEscape(q.v))
      {
        assert p == q;
        LeTotal(p.v, p.v);
        LeTotal(ClientEscape(p.v), ClientEscape(p.v));
      }
    }
  }

  lemma UnreservedHaveNoSpace(params: seq<Pair>)
    requires forall p :: p in params ==> AllUnreserved(p.k)
    ensures NoSpaces(params) <==> forall p :: p in params ==> ' ' !in p.v
  {
    forall p | p in params ensures ' ' !in p.k {}
  }

  lemma OrderIsOfValues(params: seq<Pair>)
    requires forall p :: p in params ==> AllUnreserved(p.k)
    ensures OrderKept(params) <==> ValuesInOrder(params)
  {
    forall p | p in params ensures ClientEscape(p.k) == p.k { ClientEscapeFixed(p.k); }
    if OrderKept(params) {
      forall p, q | p in params && q in params && p.k == q.k
        ensures Le(p.v, q.v) <==> Le(ClientEscape(p.v), ClientEscape(q.v))
      {
        assert PairLe(p, q) <==> PairLe(Escaped(p), Escaped(q));
      }
    }
    if ValuesInOrder(params) {
      forall p, q | p in params && q in params ensures PairLe(p, q) <==> PairLe(Escaped(p), Escaped(q)) {}
    }
  }

  /** For S3, a name that comes twice is enough, whatever its values: the client signs only the first. */
  lemma RepeatedNameDisagrees(raw: string, k: string, v: string, w: string)
    requires Bytes(k) && Bytes(v) && Bytes(w) && ParseQuery(raw) == Some([Pair(k, v), Pair(k, w)])
    ensures EncodedSearch([Pair(k, v), Pair(k, w)], true) != Canonical(raw)
  {
    var ps := [Pair(k, v), Pair(k, w)];
    assert ps[0].k == ps[1].k;
    QueriesAgreeIff(raw, ps, true);
  }

  lemma SwappedNamesDisagree(raw: string, p: Pair, q: Pair, s3: bool)
    requires ParseQuery(raw) == Some([p, q]) && PairBytes([p, q])
    requires Lt(q.k, p.k) && Lt(ClientEscape(p.k), ClientEscape(q.k))
    ensures EncodedSearch([p, q], s3) != Canonical(raw)
  {
    SwapsOrder([p, q], p, q);
    QueriesAgreeIff(raw, [p, q], s3);
  }

  lemma SwapsOrder(ps: seq<Pair>, p: Pair, q: Pair)
    requires p in ps && q in ps && Lt(q.k, p.k) && Lt(ClientEscape(p.k), ClientEscape(q.k))
    ensures !OrderKept(ps)
  {
    StringsOrder(p.k, q.k);
    StringsOrder(ClientEscape(p.k), ClientEscape(q.k));
    assert PairLe(q, p) && !PairLe(Escaped(q), Escaped(p));
  }

  /** Without any space or repetition, two names can be enough: the client puts "a/" first and the server "a-". */
  lemma ReservedNamesDisagree(raw: string, v: string, w: string, s3: bool)
    requires Bytes(v) && Bytes(w) && ParseQuery(raw) == Some([Pair("a/", v), Pair("a-", w)])
    ensures EncodedSearch([Pair("a/", v), Pair("a-", w)], s3) != Canonical(raw)
  {
    SlashBeforeDash();
    SwappedNamesDisagree(raw, Pair("a/", v), Pair("a-", w), s3);
  }

  lemma SlashBeforeDash()
    ensures Lt("a-", "a/") && Lt(ClientEscape("a/"), ClientEscape("a-")) && Bytes("a/") && Bytes("a-")
  {
    assert "a/"[1..] == "/" && "a-"[1..] == "-" && "/"[1..] == "" && "-"[1..] == "";
    assert Percent('/') == "%2F";
    assert ClientEscape("/") == "%2F" && ClientEscape("-") == "-";
    assert ClientEscape("a/") == "a%2F" && ClientEscape("a-") == "a-";
    assert "a%2F"[1..] == "%2F" && "a-"[1] == '-' && "a%2F"[1] == '%' && "a/"[1] == '/';
  }
}
