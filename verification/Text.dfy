/** Go string functions on which the modelled code relies. A Go string is a string of bytes;
    its bytes are modelled as characters. */
module Text {
  import opened Seqs
  import opened Sorting

  /** The byte-wise lexicographic order that Go's `<=` uses on strings. */
  predicate Le(a: string, b: string) {
    |a| == 0 || (|b| > 0 && (a[0] < b[0] || (a[0] == b[0] && Le(a[1..], b[1..]))))
  }

  predicate Lt(a: string, b: string) {
    a != b && Le(a, b)
  }

  function StringOrder(): (string, string) -> bool {
    (a, b) => Le(a, b)
  }

  lemma {:induction false} LeTotal(a: string, b: string)
    ensures Le(a, b) || Le(b, a)
  {
    if a != "" && b != "" && a[0] == b[0] { LeTotal(a[1..], b[1..]); }
  }

  lemma {:induction false} LeAntisymmetric(a: string, b: string)
    requires Le(a, b) && Le(b, a)
    ensures a == b
  {
    if a != "" {
      LeAntisymmetric(a[1..], b[1..]);
      assert a == [a[0]] + a[1..] && b == [b[0]] + b[1..];
    }
  }

  lemma {:induction false} LeTransitive(a: string, b: string, c: string)
    requires Le(a, b) && Le(b, c)
    ensures Le(a, c)
  {
    if a != "" && a[0] == b[0] && b[0] == c[0] { LeTransitive(a[1..], b[1..], c[1..]); }
  }

  lemma StringsTotallyOrdered()
    ensures TotalOrder(StringOrder())
  {
    forall x, y ensures StringOrder()(x, y) || StringOrder()(y, x) { LeTotal(x, y); }
    forall x, y | StringOrder()(x, y) && StringOrder()(y, x) ensures x == y { LeAntisymmetric(x, y); }
    forall x, y, z | StringOrder()(x, y) && StringOrder()(y, z) ensures StringOrder()(x, z) { LeTransitive(x, y, z); }
  }

  lemma StringsOrder(a: string, b: string)
    ensures Lt(a, b) || a == b || Lt(b, a)
    ensures !(Lt(a, b) && Lt(b, a)) && (Le(a, b) <==> Lt(a, b) || a == b)
  {
    LeTotal(a, b);
    if Le(a, b) && Le(b, a) { LeAntisymmetric(a, b); }
  }

  lemma LtTransitive(a: string, b: string, c: string)
    requires Lt(a, b) && Lt(b, c)
    ensures Lt(a, c)
  {
    LeTransitive(a, b, c);
    if a == c { LeAntisymmetric(a, b); }
  }

  /** `sort.Strings`. */
  function SortStrings(s: seq<string>): seq<string> {
    Sort(StringOrder(), s)
  }

  function LowerChar(c: char): char {
    if 'A' <= c <= 'Z' then (c as int - 'A' as int + 'a' as int) as char else c
  }

  lemma CapitalsAre(c: char)
    ensures 'A' <= c <= 'Z' <==> c in "ABCDEFGHIJKLMNOPQRSTUVWXYZ"
  {
  }

  lemma SmallLettersAre(c: char)
    ensures 'a' <= c <= 'z' <==> c in "abcdefghijklmnopqrstuvwxyz"
  {
  }

  predicate HasPrefix(s: string, p: string) {
    p <= s
  }

  predicate HasSuffix(s: string, p: string) {
    |p| <= |s| && s[|s| - |p|..] == p
  }

  lemma SuffixIff(s: string, p: string)
    ensures HasSuffix(s, p) <==> exists a :: s == a + p
  {
    if HasSuffix(s, p) { assert s == s[..|s| - |p|] + p; }
  }

  /** `strings.IndexByte`: the first position of `c`, or -1. */
  function IndexByte(s: string, c: char): (r: int)
    ensures -1 <= r < |s|
    ensures r >= 0 ==> s[r] == c && c !in s[..r]
    ensures r < 0 ==> c !in s
  {
    if s == "" then -1
    else if s[0] == c then 0
    else
      var r := IndexByte(s[1..], c);
      assert r >= 0 ==> s[..r + 1] == [s[0]] + s[1..][..r];
      if r < 0 then -1 else r + 1
  }

  lemma {:induction false} CutAtEquals(k: string, v: string)
    requires '=' !in k
    ensures IndexByte(k + "=" + v, '=') == |k|
    ensures (k + "=" + v)[..|k|] == k && (k + "=" + v)[|k| + 1..] == v
  {
    var s := k + "=" + v;
    if k != "" {
      CutAtEquals(k[1..], v);
      assert s[1..] == k[1..] + "=" + v;
    }
  }

  /** `strings.Split` on a one-byte separator. */
  function Split(s: string, c: char): (r: seq<string>)
    ensures |r| >= 1
  {
    if s == "" then [""]
    else
      var r := Split(s[1..], c);
      if s[0] == c then [""] + r else [[s[0]] + r[0]] + r[1..]
  }

  /** `strings.Join`. */
  function Join(parts: seq<string>, sep: string): string {
    if parts == [] then ""
    else if |parts| == 1 then parts[0]
    else parts[0] + sep + Join(parts[1..], sep)
  }

  lemma {:induction false} SplitNone(s: string, c: char)
    requires c !in s
    ensures Split(s, c) == [s]
  {
    if s != "" {
      SplitNone(s[1..], c);
      assert s == [s[0]] + s[1..];
    }
  }

  lemma {:induction false} SplitAppend(a: string, c: char, b: string)
    ensures Split(a + [c] + b, c) == Split(a, c) + Split(b, c)
  {
    if a == "" {
      assert (a + [c] + b)[1..] == b;
    } else {
      var r, t := Split(a[1..], c), Split(b, c);
      SplitAppend(a[1..], c, b);
      Associates(a, [c], b);
      Associates(a[1..], [c], b);
      HeadAndTail(a, [c] + b);
      HeadAndTail(r, t);
      Associates([""], r, t);
      Associates([[a[0]] + r[0]], r[1..], t);
    }
  }

  /** Splitting undoes joining when no part holds the separator. */
  lemma {:induction false} SplitJoin(parts: seq<string>, c: char)
    requires parts != []
    requires forall p :: p in parts ==> c !in p
    ensures Split(Join(parts, [c]), c) == parts
  {
    SplitNone(parts[0], c);
    if |parts| > 1 {
      SplitJoin(parts[1..], c);
      SplitAppend(parts[0], c, Join(parts[1..], [c]));
      assert parts == [parts[0]] + parts[1..];
    }
  }

  /** The white space of `strings.TrimSpace` and of the regular-expression class `\s`. */
  predicate IsSpace(c: char) {
    c == ' ' || c == '\t' || c == '\n' || c == '\r' || c as int == 11 || c as int == 12
  }

  function TrimLeft(s: string): string {
    if s != "" && IsSpace(s[0]) then TrimLeft(s[1..]) else s
  }

  function TrimRight(s: string): string {
    if s != "" && IsSpace(s[|s| - 1]) then TrimRight(s[..|s| - 1]) else s
  }

  /** `strings.TrimSpace`. */
  function TrimSpace(s: string): string {
    TrimRight(TrimLeft(s))
  }

  predicate Trimmed(s: string) {
    s == "" || (!IsSpace(s[0]) && !IsSpace(s[|s| - 1]))
  }

  lemma TrimmedIsFixed(s: string)
    requires Trimmed(s)
    ensures TrimSpace(s) == s
    ensures TrimSpace(" " + s) == s
  {
    assert (" " + s)[1..] == s;
  }

  /** Sorting names without repetition gives them in strictly ascending order. */
  lemma SortedKeys(keys: seq<string>)
    requires forall i, j :: 0 <= i < j < |keys| ==> keys[i] != keys[j]
    ensures forall k :: k in SortStrings(keys) <==> k in keys
    ensures forall i, j :: 0 <= i < j < |SortStrings(keys)| ==> Lt(SortStrings(keys)[i], SortStrings(keys)[j])
  {
    var s := SortStrings(keys);
    StringsTotallyOrdered();
    SortPermutes(StringOrder(), keys);
    SortSorted(StringOrder(), keys);
    forall k ensures k in s <==> k in keys {
      assert k in s <==> k in multiset(s);
      assert k in keys <==> k in multiset(keys);
    }
    forall i, j | 0 <= i < j < |s| ensures s[i] != s[j] {
      DistinctAfterPermuting(keys, s, i, j);
    }
    forall i, j | 0 <= i < j < |s| ensures Le(s[i], s[j]) {
      assert StringOrder()(s[i], s[j]);
    }
  }

  /** The names of a set in ascending order: a loop over a map's keys, whatever its order, and `sort.Strings`. */
  method SortedNames(names: set<string>) returns (keys: seq<string>)
    ensures forall k :: k in keys <==> k in names
    ensures forall i, j :: 0 <= i < j < |keys| ==> Lt(keys[i], keys[j])
  {
    keys := [];
    var todo := names;
    while todo != {}
      invariant todo <= names
      invariant forall k :: k in keys <==> k in names - todo
      invariant forall i, j :: 0 <= i < j < |keys| ==> keys[i] != keys[j]
      decreases todo
    {
      var k :| k in todo;
      assert forall i :: 0 <= i < |keys| ==> keys[i] in keys;
      keys, todo := keys + [k], todo - {k};
    }
    SortedKeys(keys);
    keys := SortStrings(keys);
  }

  lemma {:induction false} AtMostOnce(a: seq<string>, x: string)
    requires forall i, j :: 0 <= i < j < |a| ==> a[i] != a[j]
    ensures multiset(a)[x] <= 1
  {
    if a != [] {
      assert a == [a[0]] + a[1..];
      AtMostOnce(a[1..], x);
      if a[0] == x { assert x !in a[1..]; }
    }
  }

  lemma DistinctAfterPermuting(a: seq<string>, b: seq<string>, i: nat, j: nat)
    requires forall i, j :: 0 <= i < j < |a| ==> a[i] != a[j]
    requires multiset(a) == multiset(b) && i < j < |b|
    ensures b[i] != b[j]
  {
    AtMostOnce(a, b[i]);
    assert b == b[..i] + [b[i]] + b[i + 1..j] + [b[j]] + b[j + 1..];
  }

  lemma JoinTwo(a: string, b: string, sep: string)
    ensures Join([a, b], sep) == a + sep + b
  {
    assert [a, b][1..] == [b];
  }

  lemma JoinMore(a: string, rest: seq<string>, sep: string)
    requires rest != []
    ensures Join([a] + rest, sep) == a + sep + Join(rest, sep)
  {
    assert ([a] + rest)[1..] == rest;
  }
}
