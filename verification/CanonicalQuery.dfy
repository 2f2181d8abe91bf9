/** The server's canonical query string: parse, group by name, sort names, sort each name's values,
    escape and join. */
module CanonicalQuery {
  import opened Seqs
  import opened Results
  import opened Sorting
  import opened Text
  import opened Url

  predicate PairLe(a: Pair, b: Pair) {
    if a.k == b.k then Le(a.v, b.v) else Le(a.k, b.k)
  }

  function PairOrder(): (Pair, Pair) -> bool {
    (a, b) => PairLe(a, b)
  }

  lemma PairsTotallyOrdered()
    ensures TotalOrder(PairOrder())
  {
    forall x, y ensures PairOrder()(x, y) || PairOrder()(y, x) { LeTotal(x.k, y.k); LeTotal(x.v, y.v); }
    forall x, y | PairOrder()(x, y) && PairOrder()(y, x) ensures x == y {
      if x.k == y.k { LeAntisymmetric(x.v, y.v); } else { LeAntisymmetric(x.k, y.k); }
    }
    forall x, y, z | PairOrder()(x, y) && PairOrder()(y, z) ensures PairOrder()(x, z) {
      if x.k == y.k && y.k == z.k {
        LeTransitive(x.v, y.v, z.v);
      } else if x.k != y.k && y.k != z.k {
        LeTransitive(x.k, y.k, z.k);
        if x.k == z.k { LeAntisymmetric(x.k, y.k); }
      }
    }
  }

  function Show(p: Pair): string {
    QueryEscape(p.k) + "=" + QueryEscape(p.v)
  }

  function ShowAll(ps: seq<Pair>): seq<string> {
    if ps == [] then [] else [Show(ps[0])] + ShowAll(ps[1..])
  }

  /** What the canonical query is: the pairs sorted by name, then by value, or the raw text when it does
      not parse. */
  function Canonical(raw: string): string {
    match ParseQuery(raw)
    case None => raw
    case Some(ps) => Join(ShowAll(Sort(PairOrder(), ps)), "&")
  }

  // ----- The server's loops -----

  function ValuesOf(ps: seq<Pair>, k: string): seq<string> {
    if ps == [] then []
    else (if ps[0].k == k then [ps[0].v] else []) + ValuesOf(ps[1..], k)
  }

  function WithKey(k: string, vals: seq<string>): (r: seq<Pair>)
    ensures |r| == |vals| && forall i :: 0 <= i < |r| ==> r[i] == Pair(k, vals[i])
  {
    seq(|vals|, i requires 0 <= i < |vals| => Pair(k, vals[i]))
  }

  lemma {:induction false} ValuesCount(ps: seq<Pair>, k: string, v: string)
    ensures multiset(ValuesOf(ps, k))[v] == multiset(ps)[Pair(k, v)]
  {
    if ps != [] {
      ValuesCount(ps[1..], k, v);
      MultisetHead(ps);
      if ps[0].k == k {
        assert ValuesOf(ps, k)[1..] == ValuesOf(ps[1..], k);
        MultisetHead(ValuesOf(ps, k));
      } else {
        EmptyFirst(ValuesOf(ps[1..], k));
      }
    }
  }

  lemma WithKeyTail(k: string, vals: seq<string>)
    requires vals != []
    ensures WithKey(k, vals) != [] && WithKey(k, vals)[0] == Pair(k, vals[0])
    ensures WithKey(k, vals)[1..] == WithKey(k, vals[1..])
  {
  }

  lemma {:induction false} WithKeyCount(k: string, vals: seq<string>, p: Pair)
    ensures multiset(WithKey(k, vals))[p] == if p.k == k then multiset(vals)[p.v] else 0
  {
    if vals != [] {
      WithKeyCount(k, vals[1..], p);
      WithKeyTail(k, vals);
      MultisetHead(vals);
      MultisetHead(WithKey(k, vals));
    }
  }

  lemma {:induction false} ValuesAppend(a: seq<Pair>, p: Pair, k: string)
    ensures ValuesOf(a + [p], k) == ValuesOf(a, k) + if p.k == k then [p.v] else []
  {
    if a != [] {
      ValuesAppend(a[1..], p, k);
      assert (a + [p])[1..] == a[1..] + [p];
    }
  }

  function Names(ps: seq<Pair>): set<string> {
    set p | p in ps :: p.k
  }

  lemma {:induction false} ValuesOfNamed(ps: seq<Pair>, k: string)
    ensures k !in Names(ps) ==> ValuesOf(ps, k) == []
  {
    if ps != [] {
      ValuesOfNamed(ps[1..], k);
      assert ps[0] in ps && forall p :: p in ps[1..] ==> p in ps;
    }
  }

  /** `url.Values`: each name's values in order of appearance. */
  method Collect(ps: seq<Pair>) returns (v: map<string, seq<string>>)
    ensures v.Keys == Names(ps)
    ensures forall k :: k in v ==> v[k] == ValuesOf(ps, k)
  {
    v := map[];
    for i := 0 to |ps|
      invariant v.Keys == Names(ps[..i])
      invariant forall k :: k in v ==> v[k] == ValuesOf(ps[..i], k)
    {
      var p := ps[i];
      forall k ensures ValuesOf(ps[..i + 1], k) == ValuesOf(ps[..i], k) + if p.k == k then [p.v] else [] {
        ValuesAppend(ps[..i], p, k);
        assert ps[..i + 1] == ps[..i] + [p];
      }
      ValuesOfNamed(ps[..i], p.k);
      NamesAppend(ps[..i], p);
      assert ps[..i + 1] == ps[..i] + [p];
      v := v[p.k := (if p.k in v then v[p.k] else []) + [p.v]];
    }
    assert ps[..|ps|] == ps;
  }

  lemma NamesAppend(ps: seq<Pair>, p: Pair)
    ensures Names(ps + [p]) == Names(ps) + {p.k}
  {
    assert forall q :: q in ps + [p] <==> q in ps || q == p;
    assert p in ps + [p];
  }

  lemma {:induction false} ShowAllAppend(a: seq<Pair>, b: seq<Pair>)
    ensures ShowAll(a + b) == ShowAll(a) + ShowAll(b)
  {
    if a == [] {
      EmptyFirst(b);
      EmptyFirst(ShowAll(b));
    } else {
      ShowAllAppend(a[1..], b);
      HeadAndTail(a, b);
      Associates([Show(a[0])], ShowAll(a[1..]), ShowAll(b));
    }
  }

  lemma {:induction false} ShowAllAt(ps: seq<Pair>)
    ensures |ShowAll(ps)| == |ps| && forall i :: 0 <= i < |ps| ==> ShowAll(ps)[i] == Show(ps[i])
  {
    if ps != [] { ShowAllAt(ps[1..]); }
  }

  method WriteValues(k: string, vals: seq<string>) returns (parts: seq<string>)
    ensures parts == ShowAll(WithKey(k, vals))
  {
    parts := [];
    for j := 0 to |vals|
      invariant parts + ShowAll(WithKey(k, vals[j..])) == ShowAll(WithKey(k, vals))
    {
      WithKeyTail(k, vals[j..]);
      assert vals[j..][1..] == vals[j + 1..];
      Associates(parts, [Show(Pair(k, vals[j]))], ShowAll(WithKey(k, vals[j + 1..])));
      parts := parts + [QueryEscape(k) + "=" + QueryEscape(vals[j])];
    }
  }

  /** The nested loops over names and values. `flat` is the list of pairs they go through. */
  method Write(v: map<string, seq<string>>, keys: seq<string>, ghost ps: seq<Pair>) returns (parts: seq<string>, ghost flat: seq<Pair>)
    requires forall k :: k in keys <==> k in v
    requires forall i, j :: 0 <= i < j < |keys| ==> Lt(keys[i], keys[j])
    requires forall k :: k in v ==> v[k] == ValuesOf(ps, k)
    requires v.Keys == Names(ps)
    ensures parts == ShowAll(flat)
    ensures Sorted(PairOrder(), flat) && multiset(flat) == multiset(ps)
  {
    parts, flat := [], [];
    for i := 0 to |keys|
      invariant parts == ShowAll(flat)
      invariant SoFar(ps, keys, i, flat)
    {
      var vals := SortStrings(v[keys[i]]);
      var group := WriteValues(keys[i], vals);
      ShowAllAppend(flat, WithKey(keys[i], vals));
      GroupAppended(ps, keys, i, flat, v[keys[i]]);
      parts := parts + group;
      flat := flat + WithKey(keys[i], vals);
    }
    AllCounted(ps, keys, flat);
  }

  /** `flat` is sorted and holds exactly the pairs of `ps` whose name is among the first `i` keys. */
  ghost predicate SoFar(ps: seq<Pair>, keys: seq<string>, i: nat, flat: seq<Pair>) {
    i <= |keys| && Sorted(PairOrder(), flat) && Counted(ps, keys[..i], flat)
  }

  /** `flat` holds exactly the pairs of `ps` whose name is among `keys`, counted with repetition. */
  ghost predicate Counted(ps: seq<Pair>, keys: seq<string>, flat: seq<Pair>) {
    && (forall j :: 0 <= j < |flat| ==> flat[j].k in keys)
    && (forall p :: multiset(flat)[p] == if p.k in keys then multiset(ps)[p] else 0)
  }

  lemma GroupAppended(ps: seq<Pair>, keys: seq<string>, i: nat, flat: seq<Pair>, vals: seq<string>)
    requires i < |keys| && forall a, b :: 0 <= a < b < |keys| ==> Lt(keys[a], keys[b])
    requires vals == ValuesOf(ps, keys[i])
    requires SoFar(ps, keys, i, flat)
    ensures SoFar(ps, keys, i + 1, flat + WithKey(keys[i], SortStrings(vals)))
  {
    assert keys[..i + 1] == keys[..i] + [keys[i]];
    var k := keys[i];
    var sorted := SortStrings(vals);
    var group := WithKey(k, sorted);
    StringsTotallyOrdered();
    SortPermutes(StringOrder(), vals);
    SortSorted(StringOrder(), vals);
    forall p: Pair ensures multiset(group)[p] == if p.k == k then multiset(ps)[p] else 0 {
      WithKeyCount(k, sorted, p);
      ValuesCount(ps, k, p.v);
    }
    assert forall a :: 0 <= a < i ==> keys[a] != k;
    assert k !in keys[..i];
    forall x | x in keys[..i] ensures Lt(x, k) {
      var c :| 0 <= c < i && keys[c] == x;
      assert Lt(keys[c], keys[i]);
    }
    GroupSorts(flat, k, sorted);
  }

  lemma GroupSorts(flat: seq<Pair>, k: string, sorted: seq<string>)
    requires Sorted(PairOrder(), flat) && Sorted(StringOrder(), sorted)
    requires forall j :: 0 <= j < |flat| ==> Lt(flat[j].k, k)
    ensures Sorted(PairOrder(), flat + WithKey(k, sorted))
  {
    var next := flat + WithKey(k, sorted);
    forall a, b | 0 <= a < b < |next| ensures PairOrder()(next[a], next[b]) {
      if b < |flat| {
        assert PairOrder()(flat[a], flat[b]);
      } else if a >= |flat| {
        assert StringOrder()(sorted[a - |flat|], sorted[b - |flat|]);
      }
    }
  }

  lemma AllCounted(ps: seq<Pair>, keys: seq<string>, flat: seq<Pair>)
    requires forall k :: k in Names(ps) ==> k in keys
    requires Counted(ps, keys[..|keys|], flat)
    ensures multiset(flat) == multiset(ps)
  {
    assert keys[..|keys|] == keys;
    forall p ensures multiset(flat)[p] == multiset(ps)[p] {
      if p in multiset(ps) {
        assert p in ps;
        assert p.k in Names(ps);
      }
    }
  }

  /** `canonicalQuery`. */
  method Compute(raw: string) returns (r: string)
    ensures r == Canonical(raw)
  {
    if raw == "" {
      return "";
    }
    var parsed := ParseQuery(raw);
    if parsed.None? {
      return raw;
    }
    var ps := parsed.value;
    var v := Collect(ps);
    var keys := SortedNames(v.Keys);
    var parts, flat := Write(v, keys, ps);
    PairsTotallyOrdered();
    SortPermutes(PairOrder(), ps);
    SortSorted(PairOrder(), ps);
    SortedUnique(PairOrder(), flat, Sort(PairOrder(), ps));
    return Join(parts, "&");
  }

  // ----- What it promises -----

  ghost predicate SameSegments(p: string, q: string) {
    multiset(Split(p, '&')) == multiset(Split(q, '&'))
  }

  /** Reordering the segments of a query leaves its canonical form alone exactly when the query is well
      formed or nothing was reordered: a malformed query is passed through as it is. */
  lemma ReorderingIff(p: string, q: string)
    requires SameSegments(p, q)
    ensures Canonical(p) == Canonical(q) <==> ParseQuery(p).Some? || p == q
  {
    WellFormedPermutes(Split(p, '&'), Split(q, '&'));
    if ParseQuery(p).Some? {
      PairsPermute(Split(p, '&'), Split(q, '&'));
      PairsTotallyOrdered();
      SortCanonical(PairOrder(), ParseQuery(p).value, ParseQuery(q).value);
    }
  }

  ghost predicate PairBytes(ps: seq<Pair>) {
    forall i :: 0 <= i < |ps| ==> Bytes(ps[i].k) && Bytes(ps[i].v)
  }

  lemma {:induction false} PairsAreBytes(segments: seq<string>)
    requires forall s :: s in segments ==> Bytes(s)
    ensures PairBytes(Pairs(segments))
  {
    if segments != [] {
      PairsAreBytes(segments[1..]);
      var s := segments[0];
      var eq := IndexByte(s, '=');
      if eq < 0 {
        UnescapeGivesBytes(s);
      } else {
        UnescapeGivesBytes(s[..eq]);
        UnescapeGivesBytes(s[eq + 1..]);
      }
    }
  }

  lemma {:induction false} SplitKeepsBytes(s: string, c: char)
    requires Bytes(s)
    ensures forall p :: p in Split(s, c) ==> Bytes(p)
  {
    if s != "" {
      SplitKeepsBytes(s[1..], c);
      var r := Split(s[1..], c);
      assert Bytes(r[0]);
      forall p | p in Split(s, c) ensures Bytes(p) {
        assert p == "" || p == [s[0]] + r[0] || p in r;
      }
    }
  }

  /** A pair written out is read back as itself. */
  lemma ShowSegment(p: Pair)
    requires Bytes(p.k) && Bytes(p.v)
    ensures Segment(Show(p)) == Some([p]) && '&' !in Show(p)
  {
    var k, v := QueryEscape(p.k), QueryEscape(p.v);
    EscapeIsPlain(p.k);
    EscapeIsPlain(p.v);
    EscapeRoundTrip(p.k);
    EscapeRoundTrip(p.v);
    CutAtEquals(k, v);
  }

  lemma {:induction false} ShowAllParses(ps: seq<Pair>)
    requires PairBytes(ps)
    ensures WellFormed(ShowAll(ps)) && Pairs(ShowAll(ps)) == ps
  {
    if ps != [] {
      ShowAllParses(ps[1..]);
      ShowSegment(ps[0]);
      assert ShowAll(ps)[1..] == ShowAll(ps[1..]);
      assert ps == [ps[0]] + ps[1..];
      assert forall s :: s in ShowAll(ps) <==> s == Show(ps[0]) || s in ShowAll(ps[1..]);
    }
  }

  /** What is written out for a list of pairs parses to that list. */
  lemma WrittenParses(ps: seq<Pair>)
    requires PairBytes(ps)
    ensures ParseQuery(Join(ShowAll(ps), "&")) == Some(ps)
  {
    if ps != [] {
      ShowAllAt(ps);
      forall s | s in ShowAll(ps) ensures '&' !in s {
        var i :| 0 <= i < |ps| && Show(ps[i]) == s;
        ShowSegment(ps[i]);
      }
      SplitJoin(ShowAll(ps), '&');
      ShowAllParses(ps);
    } else {
      assert Split("", '&') == [""];
      assert Pairs([""]) == Pairs([""][1..]);
    }
  }

  /** Canonicalising twice changes nothing. */
  lemma Idempotent(raw: string)
    requires Bytes(raw)
    ensures Canonical(Canonical(raw)) == Canonical(raw)
  {
    if ParseQuery(raw).Some? {
      var ps := ParseQuery(raw).value;
      var sorted := Sort(PairOrder(), ps);
      SplitKeepsBytes(raw, '&');
      PairsAreBytes(Split(raw, '&'));
      PairsTotallyOrdered();
      SortPermutes(PairOrder(), ps);
      SortSorted(PairOrder(), ps);
      forall i | 0 <= i < |sorted| ensures Bytes(sorted[i].k) && Bytes(sorted[i].v) {
        assert sorted[i] in multiset(sorted);
        assert sorted[i] in ps;
      }
      WrittenParses(sorted);
      SortOfSorted(PairOrder(), sorted);
    }
  }

  /** Nothing is lost either: the canonical form parses to the same pairs, counted with repetition. */
  lemma CanonicalKeepsPairs(raw: string)
    requires Bytes(raw) && ParseQuery(raw).Some?
    ensures ParseQuery(Canonical(raw)).Some?
    ensures multiset(ParseQuery(Canonical(raw)).value) == multiset(ParseQuery(raw).value)
  {
    var ps := ParseQuery(raw).value;
    var sorted := Sort(PairOrder(), ps);
    SplitKeepsBytes(raw, '&');
    PairsAreBytes(Split(raw, '&'));
    SortPermutes(PairOrder(), ps);
    forall i | 0 <= i < |sorted| ensures Bytes(sorted[i].k) && Bytes(sorted[i].v) {
      assert sorted[i] in multiset(sorted);
      assert sorted[i] in ps;
    }
    WrittenParses(sorted);
  }
}
