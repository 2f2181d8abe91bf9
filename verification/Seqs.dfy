/** Facts about concatenation that the verifier is spared from rediscovering. */
module Seqs {
  lemma Associates<T>(a: seq<T>, b: seq<T>, c: seq<T>)
    ensures (a + b) + c == a + (b + c)
  {
  }

  lemma HeadAndTail<T>(a: seq<T>, b: seq<T>)
    requires a != []
    ensures a + b != [] && (a + b)[0] == a[0] && (a + b)[1..] == a[1..] + b
  {
  }

  lemma EmptyFirst<T>(b: seq<T>)
    ensures [] + b == b
  {
  }

  lemma AppendSlices<T>(a: seq<T>, b: seq<T>, i: nat, j: nat)
    requires i <= j <= |a|
    ensures (a + b)[..i] == a[..i] && (a + b)[i..j] == a[i..j] && (a + b)[i..] == a[i..] + b
  {
  }

  lemma SameTail<T>(a: seq<T>, b: seq<T>, c: seq<T>)
    ensures a + b == a + c <==> b == c
  {
    assert (a + b)[|a|..] == b && (a + c)[|a|..] == c;
  }

  lemma CutAt<T>(a: seq<T>, i: nat)
    requires i < |a|
    ensures a == a[..i] + [a[i]] + a[i + 1..]
  {
  }

  lemma MultisetAround<T>(a: seq<T>, b: seq<T>, c: seq<T>)
    ensures multiset(a + b + c) == multiset(b) + multiset(a + c)
  {
  }

  lemma MultisetHead<T>(a: seq<T>)
    requires a != []
    ensures multiset(a) == multiset{a[0]} + multiset(a[1..])
  {
    assert a == [a[0]] + a[1..];
  }

  lemma MapsAssociate<K, V>(a: map<K, V>, b: map<K, V>, c: map<K, V>)
    ensures (a + b) + c == a + (b + c)
  {
  }
}
