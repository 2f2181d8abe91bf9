/** Sorting under an arbitrary total order: the specification of Go's `sort` package and of
    JavaScript's `Array.prototype.sort`. A sorted permutation of a list is unique, so every
    correct sort is this one. */
module Sorting {

  ghost predicate TotalOrder<T(!new)>(le: (T, T) -> bool) {
    && (forall x, y :: le(x, y) || le(y, x))
    && (forall x, y :: le(x, y) && le(y, x) ==> x == y)
    && (forall x, y, z :: le(x, y) && le(y, z) ==> le(x, z))
  }

  ghost predicate Sorted<T>(le: (T, T) -> bool, s: seq<T>) {
    forall i, j :: 0 <= i < j < |s| ==> le(s[i], s[j])
  }

  function Insert<T>(le: (T, T) -> bool, x: T, s: seq<T>): seq<T> {
    if s == [] || le(x, s[0]) then [x] + s else [s[0]] + Insert(le, x, s[1..])
  }

  function Sort<T>(le: (T, T) -> bool, s: seq<T>): seq<T> {
    if s == [] then [] else Insert(le, s[0], Sort(le, s[1..]))
  }

  lemma {:induction false} InsertPermutes<T>(le: (T, T) -> bool, x: T, s: seq<T>)
    ensures multiset(Insert(le, x, s)) == multiset{x} + multiset(s)
  {
    if s != [] && !le(x, s[0]) {
      InsertPermutes(le, x, s[1..]);
      assert s == [s[0]] + s[1..];
    }
  }

  lemma {:induction false} InsertSorted<T(!new)>(le: (T, T) -> bool, x: T, s: seq<T>)
    requires TotalOrder(le) && Sorted(le, s)
    ensures Sorted(le, Insert(le, x, s))
  {
    if s != [] && !le(x, s[0]) {
      InsertSorted(le, x, s[1..]);
      InsertPermutes(le, x, s[1..]);
      var r := Insert(le, x, s[1..]);
      forall j | 0 <= j < |r| ensures le(s[0], r[j]) {
        assert r[j] in multiset(r);
      }
    }
  }

  lemma {:induction false} SortPermutes<T>(le: (T, T) -> bool, s: seq<T>)
    ensures multiset(Sort(le, s)) == multiset(s)
    ensures |Sort(le, s)| == |s|
  {
    if s != [] {
      SortPermutes(le, s[1..]);
      InsertPermutes(le, s[0], Sort(le, s[1..]));
      assert s == [s[0]] + s[1..];
    }
    assert |multiset(Sort(le, s))| == |Sort(le, s)|;
  }

  lemma {:induction false} SortSorted<T(!new)>(le: (T, T) -> bool, s: seq<T>)
    requires TotalOrder(le)
    ensures Sorted(le, Sort(le, s))
  {
    if s != [] {
      SortSorted(le, s[1..]);
      InsertSorted(le, s[0], Sort(le, s[1..]));
    }
  }

  /** Two sorted lists with the same elements, counted with repetition, are the same list. */
  lemma {:induction false} SortedUnique<T(!new)>(le: (T, T) -> bool, a: seq<T>, b: seq<T>)
    requires TotalOrder(le)
    requires Sorted(le, a) && Sorted(le, b)
    requires multiset(a) == multiset(b)
    ensures a == b
  {
    assert |multiset(a)| == |a| && |multiset(b)| == |b|;
    if a != [] {
      assert a[0] in multiset(b) && b[0] in multiset(a);
      assert le(a[0], b[0]) && le(b[0], a[0]);
      assert a == [a[0]] + a[1..] && b == [b[0]] + b[1..];
      assert multiset(a[1..]) == multiset(a) - multiset{a[0]};
      assert multiset(b[1..]) == multiset(b) - multiset{b[0]};
      SortedUnique(le, a[1..], b[1..]);
    }
  }

  /** Sorting depends only on the elements, never on their first order. */
  lemma SortCanonical<T(!new)>(le: (T, T) -> bool, a: seq<T>, b: seq<T>)
    requires TotalOrder(le)
    requires multiset(a) == multiset(b)
    ensures Sort(le, a) == Sort(le, b)
  {
    SortPermutes(le, a);
    SortPermutes(le, b);
    SortSorted(le, a);
    SortSorted(le, b);
    SortedUnique(le, Sort(le, a), Sort(le, b));
  }

  lemma SortOfSorted<T(!new)>(le: (T, T) -> bool, a: seq<T>)
    requires TotalOrder(le) && Sorted(le, a)
    ensures Sort(le, a) == a
  {
    SortPermutes(le, a);
    SortSorted(le, a);
    SortedUnique(le, Sort(le, a), a);
  }
}
