/** Normalising filter values in place, and why the count query may normalise the same array again. */
module Filters {
  import opened Seqs
  import opened Results
  import opened Text

  /** A Go value as `NormalizeValue` tells them apart. `Scalar` stands for booleans, numbers, times and the
      `sql.Null*` values other than strings. */
  datatype Value =
    | Nil
    | Str(s: string)
    | Scalar(n: int)
    | NullString(valid: bool, s: string)
    | Uuid(bits: int)
    | NamedString(s: string)                 // another type whose kind is string
    | Ref(isNil: bool, id: int)              // a slice, map, function or channel
    | Struct(id: int)
    | Ptr(target: Option<Target>)

  /** What a pointer points to: a value, or a variable of interface type that holds one. */
  datatype Target = Plain(v: Value) | Boxed(v: Value)

  predicate Blank(s: string) {
    TrimSpace(s) == ""
  }

  lemma {:induction false} TrimLeftIsEmptyIff(s: string)
    ensures TrimLeft(s) == "" <==> forall c :: c in s ==> IsSpace(c)
    ensures TrimLeft(s) != "" ==> !IsSpace(TrimLeft(s)[0])
  {
    if s != "" {
      assert s == [s[0]] + s[1..];
      if IsSpace(s[0]) { TrimLeftIsEmptyIff(s[1..]); } else { assert s[0] in s; }
    }
  }

  lemma {:induction false} TrimRightKeepsFirst(s: string)
    requires s != "" && !IsSpace(s[0])
    ensures TrimRight(s) != ""
  {
    if IsSpace(s[|s| - 1]) { TrimRightKeepsFirst(s[..|s| - 1]); }
  }

  /** A blank text is white space throughout. */
  lemma BlankIff(s: string)
    ensures Blank(s) <==> forall c :: c in s ==> IsSpace(c)
  {
    TrimLeftIsEmptyIff(s);
    if TrimLeft(s) != "" { TrimRightKeepsFirst(TrimLeft(s)); }
  }

  /** `NormalizeValue`: the value to filter by, or nothing. */
  function Normalize(v: Value): Option<Value> {
    match v
    case Nil => None
    case Str(s) => if Blank(s) then None else Some(v)
    case Scalar(_) => Some(v)
    case NullString(_, _) => Some(v)
    case Uuid(bits) => if bits == 0 then None else Some(v)
    case NamedString(s) => if Blank(s) then None else Some(v)
    case Ref(isNil, _) => if isNil then None else Some(v)
    case Struct(_) => Some(v)
    case Ptr(None) => None
    case Ptr(Some(Boxed(w))) => Some(w)
    case Ptr(Some(Plain(w))) =>
      match w
      case Str(s) => if Blank(s) then None else Some(w)
      case NullString(valid, s) => if !valid || Blank(s) then None else Some(w)
      case Uuid(bits) => if bits == 0 then None else Some(w)
      case NamedString(s) => if Blank(s) then None else Some(w)
      case _ => Some(w)
  }

  /** What a value stands for: itself, or what it points to. */
  function Held(v: Value): Value {
    if v.Ptr? && v.target.Some? then v.target.value.v else v
  }

  /** No text to filter by, or the zero identifier. */
  predicate Empty(w: Value) {
    ((w.Str? || w.NamedString?) && Blank(w.s)) || (w.Uuid? && w.bits == 0)
  }

  /** What is kept is what the value stands for. Dropped are nil and nil pointers, what stands for an empty value
      unless an interface variable holds it, nil slices and maps that nothing points to, and pointers to an SQL
      string that is not valid or blank. */
  lemma NormalizeKeeps(v: Value)
    ensures Normalize(v).Some? ==> Normalize(v).value == Held(v)
    ensures
      var boxed := v.Ptr? && v.target.Some? && v.target.value.Boxed?;
      Normalize(v).None? <==>
        || v == Nil || v == Ptr(None) || (Empty(Held(v)) && !boxed) || (v.Ref? && v.isNil)
        || (v.Ptr? && !boxed && Held(v).NullString? && (!Held(v).valid || Blank(Held(v).s)))
  {
    if v.Ptr? && v.target.Some? { assert v.target.value.v < v; }
  }

  function NormalizeAll(vs: seq<Value>): seq<Value> {
    if vs == [] then []
    else (match Normalize(vs[0]) case None => [] case Some(w) => [w]) + NormalizeAll(vs[1..])
  }

  lemma {:induction false} NormalizeAppend(a: seq<Value>, b: seq<Value>)
    ensures NormalizeAll(a + b) == NormalizeAll(a) + NormalizeAll(b)
  {
    if a == [] {
      EmptyFirst(b);
      EmptyFirst(NormalizeAll(b));
    } else {
      NormalizeAppend(a[1..], b);
      HeadAndTail(a, b);
      Associates(match Normalize(a[0]) case None => [] case Some(w) => [w], NormalizeAll(a[1..]), NormalizeAll(b));
    }
  }

  lemma NormalizeNext(was: seq<Value>, i: nat)
    requires i < |was|
    ensures NormalizeAll(was[..i + 1]) ==
            NormalizeAll(was[..i]) + match Normalize(was[i]) case None => [] case Some(w) => [w]
  {
    assert was[..i + 1] == was[..i] + [was[i]];
    NormalizeAppend(was[..i], [was[i]]);
    assert [was[i]][1..] == [];
  }

  lemma {:induction false} NormalizeShrinks(vs: seq<Value>)
    ensures |NormalizeAll(vs)| <= |vs|
  {
    if vs != [] { NormalizeShrinks(vs[1..]); }
  }

  /** `NormalizeValues`: filters the array into its own front, of which the result is the first `n` places;
      the places behind keep what they held. */
  method NormalizeValues(a: array<Value>) returns (n: nat)
    modifies a
    ensures n <= a.Length && a[..n] == NormalizeAll(old(a[..]))
    ensures a[n..] == old(a[n..])
  {
    n := 0;
    ghost var was := a[..];
    for i := 0 to a.Length
      invariant n <= i && a[..n] == NormalizeAll(was[..i])
      invariant forall j :: n <= j < a.Length ==> a[j] == was[j]
    {
      NormalizeNext(was, i);
      var w := Normalize(a[i]);
      if w.Some? {
        a[n] := w.value;
        n := n + 1;
        assert a[..n] == a[..n - 1] + [w.value];
      }
    }
    assert was[..a.Length] == was;
  }

  // ----- Normalising twice -----

  /** The value comes out of a second normalisation as it went in. */
  predicate Settles(v: Value) {
    Normalize(v).Some? ==> Normalize(Normalize(v).value) == Normalize(v)
  }

  /** A value that normalisation leaves as it is. */
  predicate Usable(w: Value) {
    && !w.Nil? && !w.Ptr?
    && (w.Str? || w.NamedString? ==> !Blank(w.s))
    && (w.Uuid? ==> w.bits != 0)
    && (w.Ref? ==> !w.isNil)
  }

  /** Exactly these fail to settle: a pointer to a pointer, to a nil slice or map, or to an interface
      variable whose content is not usable. */
  lemma SettlesIff(v: Value)
    ensures Settles(v) <==>
      match v
      case Ptr(Some(Boxed(w))) => Usable(w)
      case Ptr(Some(Plain(w))) => !w.Nil? && !w.Ptr? && (w.Ref? ==> !w.isNil)
      case _ => true
  {
    if v.Ptr? && v.target.Some? {
      var w := v.target.value.v;
      assert w.Ptr? && w.target.Some? ==> w.target.value.v < w;
    }
  }

  /** A pointer to a nil slice normalises to the nil slice, which the second pass drops: the count query
      then filters by nothing where the list query filtered by it. */
  lemma NilSliceIsLost()
    ensures var v := Ptr(Some(Plain(Ref(true, 0))));
      && !Settles(v)
      && NormalizeAll([v]) == [Ref(true, 0)]
      && NormalizeAll(Compacted([v])) == []
  {
    var v := Ptr(Some(Plain(Ref(true, 0))));
    assert [v][1..] == [] && [Ref(true, 0)][1..] == [];
    assert Compacted([v]) == [Ref(true, 0)];
  }

  /** The array after one pass. */
  function Compacted(vs: seq<Value>): (r: seq<Value>)
    ensures |r| == |vs|
  {
    NormalizeShrinks(vs);
    NormalizeAll(vs) + vs[|NormalizeAll(vs)|..]
  }

  lemma {:induction false} NormalizeMembers(vs: seq<Value>, w: Value)
    ensures w in NormalizeAll(vs) <==> exists v :: v in vs && Normalize(v) == Some(w)
  {
    if vs != [] {
      NormalizeMembers(vs[1..], w);
      assert forall v :: v in vs <==> v == vs[0] || v in vs[1..];
    }
  }

  /** What the second pass must not do: change the slice that the first one gave, which lies in the same array,
      or end with other values than it. */
  ghost predicate Repeatable(vs: seq<Value>) {
    var first := NormalizeAll(vs);
    && |first| <= |vs|
    && Compacted(Compacted(vs))[..|first|] == first
    && SameValues(NormalizeAll(Compacted(vs)), first)
  }

  ghost predicate SameValues(a: seq<Value>, b: seq<Value>) {
    forall w :: w in a <==> w in b
  }

  /** No pointer points to a pointer. */
  ghost predicate NoNesting(vs: seq<Value>) {
    forall v :: v in vs && v.Ptr? && v.target.Some? ==> !v.target.value.v.Ptr?
  }

  predicate Stays(w: Value) {
    Normalize(w) == Some(w)
  }

  /** How many values in front come out of a second normalisation as they went in. */
  function Leading(ws: seq<Value>): (k: nat)
    ensures k <= |ws| && (k < |ws| ==> !Stays(ws[k]))
    ensures forall i :: 0 <= i < k ==> Stays(ws[i])
  {
    if ws == [] || !Stays(ws[0]) then 0
    else
      var k := Leading(ws[1..]);
      assert forall i :: 1 <= i < k + 1 ==> ws[i] == ws[1..][i - 1];
      k + 1
  }

  /** Read as lists from their starts, one goes on where the other ends. */
  ghost predicate Overlap(a: seq<Value>, b: seq<Value>) {
    forall i :: 0 <= i < |a| && i < |b| ==> a[i] == b[i]
  }

  /** The values that the second pass drops stand behind all others, and what the places behind them normalise
      to puts every one of them back, in their order as far as it goes. */
  ghost predicate DropsArePutBack(first: seq<Value>, behind: seq<Value>) {
    var dropped := first[Leading(first)..];
    && (forall w :: w in dropped ==> !Stays(w) && w in behind)
    && Overlap(behind, dropped)
  }

  lemma {:induction false} LeadingStays(ws: seq<Value>)
    ensures NormalizeAll(ws) == ws[..Leading(ws)] + NormalizeAll(ws[Leading(ws)..])
  {
    if ws != [] && Stays(ws[0]) {
      LeadingStays(ws[1..]);
      var k := Leading(ws[1..]);
      assert ws[..k + 1] == [ws[0]] + ws[1..][..k] && ws[k + 1..] == ws[1..][k..];
      Associates([ws[0]], ws[1..][..k], NormalizeAll(ws[1..][k..]));
    } else {
      assert ws[..0] == [] && ws[0..] == ws;
    }
  }

  /** Without nesting, what one pass gives either stays or is dropped by the next. */
  lemma FlatOrDropped(vs: seq<Value>, w: Value)
    requires NoNesting(vs) && w in NormalizeAll(vs)
    ensures Stays(w) || Normalize(w) == None
  {
    NormalizeMembers(vs, w);
  }

  lemma SecondPassIs(vs: seq<Value>)
    ensures |NormalizeAll(vs)| <= |vs|
    ensures NormalizeAll(Compacted(vs)) == NormalizeAll(NormalizeAll(vs)) + NormalizeAll(vs[|NormalizeAll(vs)|..])
  {
    NormalizeShrinks(vs);
    NormalizeAppend(NormalizeAll(vs), vs[|NormalizeAll(vs)|..]);
  }

  lemma OverlapShift(head: seq<Value>, a: seq<Value>, b: seq<Value>)
    ensures Overlap(head + a, head + b) <==> Overlap(a, b)
  {
    if Overlap(head + a, head + b) {
      forall i | 0 <= i < |a| && i < |b| ensures a[i] == b[i] {
        assert (head + a)[|head| + i] == a[i] && (head + b)[|head| + i] == b[i];
      }
    }
  }

  /** Writing `a` over the start of `b` leaves the first `n` places of `b` alone. */
  lemma OverwrittenIff(a: seq<Value>, b: seq<Value>, n: nat)
    requires |a| <= |b| && n <= |b|
    ensures (a + b[|a|..])[..n] == b[..n] <==> Overlap(a, b[..n])
  {
    var over := a + b[|a|..];
    if over[..n] == b[..n] {
      forall i | 0 <= i < |a| && i < n ensures a[i] == b[i] { assert over[..n][i] == b[..n][i]; }
    }
  }

  lemma UndisturbedIff(vs: seq<Value>)
    ensures |NormalizeAll(vs)| <= |vs|
    ensures Compacted(Compacted(vs))[..|NormalizeAll(vs)|] == NormalizeAll(vs)
            <==> Overlap(NormalizeAll(Compacted(vs)), NormalizeAll(vs))
  {
    NormalizeShrinks(vs);
    NormalizeShrinks(Compacted(vs));
    assert Compacted(vs)[..|NormalizeAll(vs)|] == NormalizeAll(vs);
    OverwrittenIff(NormalizeAll(Compacted(vs)), Compacted(vs), |NormalizeAll(vs)|);
  }

  /** The second pass leaves the first result's places alone exactly if it drops everything behind the leading
      values and puts the same back. */
  lemma OverlapIff(first: seq<Value>, behind: seq<Value>)
    requires forall w :: w in first ==> Stays(w) || Normalize(w) == None
    ensures Overlap(NormalizeAll(first) + behind, first) <==>
      NormalizeAll(first[Leading(first)..]) == [] && Overlap(behind, first[Leading(first)..])
  {
    var head, tail := first[..Leading(first)], first[Leading(first)..];
    var left := NormalizeAll(tail);
    LeadingStays(first);
    Associates(head, left, behind);
    assert first == head + tail;
    OverlapShift(head, left + behind, tail);
    if left == [] {
      EmptyFirst(behind);
    } else {
      FirstDiffers(tail, behind);
    }
  }

  lemma FirstDiffers(tail: seq<Value>, behind: seq<Value>)
    requires forall w :: w in tail ==> Stays(w) || Normalize(w) == None
    requires NormalizeAll(tail) != [] && (tail != [] ==> !Stays(tail[0]))
    ensures !Overlap(NormalizeAll(tail) + behind, tail)
  {
    StayersOnly(tail);
    var left := NormalizeAll(tail);
    assert left[0] in left && (left + behind)[0] == left[0];
  }

  lemma StayersOnly(ws: seq<Value>)
    requires forall w :: w in ws ==> Stays(w) || Normalize(w) == None
    ensures forall w :: w in NormalizeAll(ws) <==> w in ws && Stays(w)
  {
    forall w ensures w in NormalizeAll(ws) <==> w in ws && Stays(w) { NormalizeMembers(ws, w); }
  }

  lemma PutBackIff(first: seq<Value>, behind: seq<Value>)
    requires forall w :: w in first ==> Stays(w) || Normalize(w) == None
    requires forall w :: w in behind ==> w in first
    ensures Overlap(NormalizeAll(first) + behind, first) && SameValues(NormalizeAll(first) + behind, first)
            <==> DropsArePutBack(first, behind)
  {
    var k := Leading(first);
    OverlapIff(first, behind);
    LeadingStays(first);
    NoneStaysIff(first[k..]);
    if NormalizeAll(first[k..]) == [] {
      LeadingOnly(first, behind);
    }
  }

  lemma NoneStaysIff(ws: seq<Value>)
    requires forall w :: w in ws ==> Stays(w) || Normalize(w) == None
    ensures NormalizeAll(ws) == [] <==> forall w :: w in ws ==> !Stays(w)
  {
    StayersOnly(ws);
    if NormalizeAll(ws) != [] { assert NormalizeAll(ws)[0] in NormalizeAll(ws); }
  }

  lemma LeadingOnly(first: seq<Value>, behind: seq<Value>)
    requires NormalizeAll(first) == first[..Leading(first)] + []
    requires forall w :: w in first[Leading(first)..] ==> !Stays(w)
    requires forall w :: w in behind ==> w in first
    ensures SameValues(NormalizeAll(first) + behind, first) <==> forall w :: w in first[Leading(first)..] ==> w in behind
  {
    var k := Leading(first);
    assert first[..k] + [] == first[..k];
    SetsIff(first, k, behind, first[..k] + behind);
  }

  /** When normalising the array again is harmless, for every array without nested pointers. */
  lemma RepeatableIff(vs: seq<Value>)
    requires NoNesting(vs)
    ensures |NormalizeAll(vs)| <= |vs|
    ensures Repeatable(vs) <==> DropsArePutBack(NormalizeAll(vs), NormalizeAll(vs[|NormalizeAll(vs)|..]))
  {
    SecondPassIs(vs);
    UndisturbedIff(vs);
    var first, behind := NormalizeAll(vs), NormalizeAll(vs[|NormalizeAll(vs)|..]);
    forall w | w in first ensures Stays(w) || Normalize(w) == None { FlatOrDropped(vs, w); }
    forall w | w in behind ensures w in first { BehindIsKnown(vs, w); }
    PutBackIff(first, behind);
  }

  lemma BehindIsKnown(vs: seq<Value>, w: Value)
    requires |NormalizeAll(vs)| <= |vs| && w in NormalizeAll(vs[|NormalizeAll(vs)|..])
    ensures w in NormalizeAll(vs)
  {
    NormalizeMembers(vs, w);
    NormalizeMembers(vs[|NormalizeAll(vs)|..], w);
  }

  lemma SetsIff(first: seq<Value>, k: nat, behind: seq<Value>, second: seq<Value>)
    requires k <= |first| && second == first[..k] + behind
    requires forall w :: w in behind ==> w in first
    requires forall w :: w in first[..k] ==> Stays(w)
    requires forall w :: w in first[k..] ==> !Stays(w)
    ensures SameValues(second, first) <==> forall w :: w in first[k..] ==> w in behind
  {
    assert first == first[..k] + first[k..];
    assert forall w :: w in first <==> w in first[..k] || w in first[k..];
    assert forall w :: w in second <==> w in first[..k] || w in behind;
  }

  /** For a single value, nested or not: exactly if it settles. */
  lemma OneIsRepeatableIff(v: Value)
    ensures Repeatable([v]) <==> Settles(v)
  {
    NormalizeOne(v);
    match Normalize(v)
    case None =>
      assert Compacted([v]) == [v] && Compacted(Compacted([v])) == [v];
    case Some(w) =>
      NormalizeOne(w);
      assert [v][1..] == [] && Compacted([v]) == [w];
      match Normalize(w)
      case None => assert w in [w];
      case Some(x) =>
        assert [w][1..] == [] && Compacted([w]) == [x];
        assert [x][..1] == [x] && x in [x] && w in [w];
  }

  lemma NormalizeOne(v: Value)
    ensures NormalizeAll([v]) == match Normalize(v) case None => [] case Some(w) => [w]
  {
    assert [v][1..] == [];
  }

  /** If every value settles, nothing is dropped. */
  lemma SettledIsRepeatable(vs: seq<Value>)
    requires forall v :: v in vs ==> Settles(v)
    ensures Repeatable(vs)
  {
    forall v | v in vs ensures v.Ptr? && v.target.Some? ==> !v.target.value.v.Ptr? { SettlesIff(v); }
    var first := NormalizeAll(vs);
    forall w | w in first ensures Stays(w) { NormalizeMembers(vs, w); }
    RepeatableIff(vs);
    assert Leading(first) == |first|;
  }

  /** The list query and then the count query over one array: the slice that the list query holds is not
      disturbed, and the count query filters by the same set of values, exactly if the array allows it. */
  method ListThenCount(a: array<Value>) returns (listed: nat, counted: nat)
    modifies a
    ensures listed <= a.Length && counted <= a.Length
    ensures |NormalizeAll(old(a[..]))| == listed
    ensures a[..listed] == NormalizeAll(old(a[..])) && SameValues(a[..counted], NormalizeAll(old(a[..])))
            <==> Repeatable(old(a[..]))
    ensures NoNesting(old(a[..])) ==>
      (a[..listed] == NormalizeAll(old(a[..])) && SameValues(a[..counted], NormalizeAll(old(a[..])))
       <==> DropsArePutBack(NormalizeAll(old(a[..])), NormalizeAll(old(a[..])[listed..])))
  {
    ghost var was := a[..];
    listed := NormalizeValues(a);
    NormalizeShrinks(was);
    assert a[..] == a[..listed] + a[listed..];
    assert a[..] == Compacted(was);
    counted := NormalizeValues(a);
    NormalizeShrinks(Compacted(was));
    assert a[..] == a[..counted] + a[counted..];
    assert a[..] == Compacted(Compacted(was));
    assert a[..listed] == a[..][..listed];
    if NoNesting(was) { RepeatableIff(was); }
  }
}
