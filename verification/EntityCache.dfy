/** The read-through entity cache with negative entries. Every Redis command may be preceded by anything
    that other clients do, evictions included, as long as they too keep the cache coherent; and every
    command may fail. */
module EntityCache {
  import opened Results
  import opened Seqs
  import opened Sorting
  import opened Text
  import opened Keys

  /** A cached entity, or the text of a not-found mark. */
  datatype Value<T> = Ent(e: T) | Mark(s: string)

  type Cache<T> = map<string, Value<T>>

  ghost predicate PositiveOk<T>(kb: KeyBuilder, source: map<string, T>, cache: Cache<T>, id: string) {
    kb.Entity(id) in cache ==> id in source && cache[kb.Entity(id)] == Ent(source[id])
  }

  ghost predicate NegativeOk<T>(kb: KeyBuilder, source: map<string, T>, cache: Cache<T>, id: string) {
    kb.EntityNil(id) in cache && cache[kb.EntityNil(id)] == Mark("1") ==> id !in source
  }

  /** Every positive key holds the source's value and every not-found mark names an id that the source
      does not hold, leaving aside the ids in `except`. */
  ghost predicate Coherent<T>(kb: KeyBuilder, negative: bool, source: map<string, T>, except: set<string>, cache: Cache<T>) {
    && (forall id :: id !in except ==> PositiveOk(kb, source, cache, id))
    && (negative ==> forall id :: id !in except ==> NegativeOk(kb, source, cache, id))
  }

  lemma SetKeepsCoherent<T>(kb: KeyBuilder, negative: bool, source: map<string, T>, except: set<string>, cache: Cache<T>, id: string)
    requires Coherent(kb, negative, source, except, cache) && id in source
    ensures Coherent(kb, negative, source, except, cache[kb.Entity(id) := Ent(source[id])])
  {
    var cache' := cache[kb.Entity(id) := Ent(source[id])];
    forall other | other !in except
      ensures PositiveOk(kb, source, cache', other)
      ensures negative ==> NegativeOk(kb, source, cache', other)
    {
      kb.EntityIsNotNil(id, other);
      assert PositiveOk(kb, source, cache, other) && (negative ==> NegativeOk(kb, source, cache, other));
      if kb.Entity(other) == kb.Entity(id) { kb.EntityInjective(other, id); }
    }
  }

  lemma MarkKeepsCoherent<T>(kb: KeyBuilder, negative: bool, source: map<string, T>, except: set<string>, cache: Cache<T>, id: string)
    requires Coherent(kb, negative, source, except, cache) && id !in source
    ensures Coherent(kb, negative, source, except, cache[kb.EntityNil(id) := Mark("1")])
  {
    var cache' := cache[kb.EntityNil(id) := Mark("1")];
    forall other | other !in except
      ensures PositiveOk(kb, source, cache', other)
      ensures negative ==> NegativeOk(kb, source, cache', other)
    {
      kb.EntityIsNotNil(other, id);
      assert PositiveOk(kb, source, cache, other) && (negative ==> NegativeOk(kb, source, cache, other));
      if kb.EntityNil(other) == kb.EntityNil(id) { kb.EntityNilInjective(other, id); }
    }
  }

  /** What a reader has fetched for an id and not yet written back. */
  datatype Fill<T> = Fill(id: string, e: Option<T>)

  /** The cache after the write-back: SET of an entity, or SETNX of a mark if negative caching is on. */
  function Stored<T>(kb: KeyBuilder, negative: bool, cache: Cache<T>, f: Fill<T>): Cache<T> {
    match f.e
    case Some(e) => cache[kb.Entity(f.id) := Ent(e)]
    case None => if negative && kb.EntityNil(f.id) !in cache then cache[kb.EntityNil(f.id) := Mark("1")] else cache
  }

  /** The keys that `Invalidate` deletes. */
  function KeysOf(kb: KeyBuilder, negative: bool, id: string): set<string> {
    if negative then {kb.Entity(id), kb.EntityNil(id)} else {kb.Entity(id)}
  }

  /** Removing keys, by eviction, expiry or deletion, keeps the cache coherent; removing both keys of an
      id makes it coherent at that id. */
  lemma RemovalKeepsCoherent<T>(kb: KeyBuilder, negative: bool, source: map<string, T>, except: set<string>, cache: Cache<T>, keys: set<string>)
    requires Coherent(kb, negative, source, except, cache)
    ensures Coherent(kb, negative, source, except, cache - keys)
    ensures forall id :: kb.Entity(id) in keys && kb.EntityNil(id) in keys ==>
      Coherent(kb, negative, source, except - {id}, cache - keys)
  {
    forall other
      ensures PositiveOk(kb, source, cache, other) ==> PositiveOk(kb, source, cache - keys, other)
      ensures NegativeOk(kb, source, cache, other) ==> NegativeOk(kb, source, cache - keys, other)
    {
    }
  }

  // ----- Flights -----

  /** The name under which loads of several ids are merged into one flight; SHA-1 is idealised away. */
  function FlightKey(ids: seq<string>): string {
    if ids == [] then "batch:empty" else "batch:" + Join(SortStrings(ids), ",")
  }

  /** Two batches share a flight exactly when they ask for the same ids, provided no id holds a comma. */
  lemma FlightsShareIff(a: seq<string>, b: seq<string>)
    requires a != [] && b != []
    requires forall id :: id in a || id in b ==> ',' !in id
    ensures FlightKey(a) == FlightKey(b) <==> multiset(a) == multiset(b)
  {
    StringsTotallyOrdered();
    if multiset(a) == multiset(b) { SortCanonical(StringOrder(), a, b); }
    SortPermutes(StringOrder(), a);
    SortPermutes(StringOrder(), b);
    var sa, sb := SortStrings(a), SortStrings(b);
    forall id | id in sa ensures ',' !in id { assert id in multiset(sa); }
    forall id | id in sb ensures ',' !in id { assert id in multiset(sb); }
    SplitJoin(sa, ',');
    SplitJoin(sb, ',');
    assert FlightKey(a)[6..] == Join(sa, ",") && FlightKey(b)[6..] == Join(sb, ",");
  }

  /** A caller that joins a flight is given what the flight's own batch finds. That is the caller's answer
      whatever the source holds, if no id holds a comma. */
  lemma JoinedAnswerIsOwn<T>(source: map<string, T>, a: seq<string>, b: seq<string>)
    requires a != [] && b != [] && FlightKey(a) == FlightKey(b)
    requires forall id :: id in a || id in b ==> ',' !in id
    ensures Restrict(source, IdSet(a)) == Restrict(source, IdSet(b))
  {
    FlightsShareIff(a, b);
    forall id ensures id in a <==> id in b {
      assert id in a <==> id in multiset(a);
      assert id in b <==> id in multiset(b);
    }
  }

  /** The id that a whole batch looks like once it is joined. */
  function JoinedIds(a: seq<string>): string {
    Join(SortStrings(a), ",")
  }

  /** A comma in the id at which it can be cut into two ids in order. */
  predicate CutsInOrder(id: string) {
    exists i :: 0 <= i < |id| && id[i] == ',' && Le(id[..i], id[i + 1..])
  }

  lemma OneId(id: string)
    ensures SortStrings([id]) == [id] && FlightKey([id]) == "batch:" + id
  {
    assert [id][1..] == [] && Sort(StringOrder(), []) == [];
    assert Sort(StringOrder(), [id]) == Insert(StringOrder(), id, []);
  }

  lemma SortedSize(a: seq<string>)
    ensures |SortStrings(a)| == |a| && multiset(SortStrings(a)) == multiset(a) && Sorted(StringOrder(), SortStrings(a))
  {
    StringsTotallyOrdered();
    SortPermutes(StringOrder(), a);
    SortSorted(StringOrder(), a);
  }

  /** A batch of two or more ids shares its flight with the one id that they look like when joined. */
  lemma JoinedIsAnother(a: seq<string>)
    requires |a| >= 2
    ensures FlightKey([JoinedIds(a)]) == FlightKey(a) && multiset([JoinedIds(a)]) != multiset(a)
  {
    OneId(JoinedIds(a));
    SortedSize(a);
    assert |multiset([JoinedIds(a)])| == 1 && |multiset(a)| == |a|;
  }

  lemma {:induction false} PrefixLe(a: string, b: string)
    ensures Le(a, a + b)
  {
    if a != "" {
      PrefixLe(a[1..], b);
      assert (a + b)[1..] == a[1..] + b;
    }
  }

  lemma CutIsAnother(id: string, i: nat)
    requires i < |id| && id[i] == ',' && Le(id[..i], id[i + 1..])
    ensures FlightKey([id[..i], id[i + 1..]]) == FlightKey([id])
  {
    var p, q := id[..i], id[i + 1..];
    OneId(id);
    StringsTotallyOrdered();
    assert StringOrder()(p, q);
    SortOfSorted(StringOrder(), [p, q]);
    JoinTwo(p, q, ",");
    assert id == p + "," + q;
  }

  lemma AnotherCuts(id: string, b: seq<string>)
    requires |b| >= 2 && FlightKey(b) == FlightKey([id])
    ensures CutsInOrder(id)
  {
    var sorted := SortStrings(b);
    OneId(id);
    SortedSize(b);
    assert FlightKey(b)[6..] == JoinedIds(b) && FlightKey([id])[6..] == id;
    var p, rest := sorted[0], sorted[1..];
    assert id == p + "," + Join(rest, ",");
    assert StringOrder()(sorted[0], sorted[1]);
    if |rest| > 1 {
      PrefixLe(rest[0], "," + Join(rest[1..], ","));
      Associates(rest[0], ",", Join(rest[1..], ","));
      LeTransitive(p, rest[0], Join(rest, ","));
    }
    assert id[|p|] == ',' && id[..|p|] == p && id[|p| + 1..] == Join(rest, ",");
  }

  /** Which batches share their flight with another one: all of two or more ids, and of the single ids those that
      can be cut at a comma into two ids in order. */
  lemma FlightIsSharedIff(a: seq<string>)
    requires a != []
    ensures (exists b :: b != [] && FlightKey(b) == FlightKey(a) && multiset(b) != multiset(a))
            <==> |a| >= 2 || CutsInOrder(a[0])
  {
    if |a| >= 2 {
      JoinedIsAnother(a);
    } else {
      assert a == [a[0]];
      if CutsInOrder(a[0]) { var b := SingleIsShared(a[0]); }
      forall b | b != [] && FlightKey(b) == FlightKey(a) && multiset(b) != multiset(a) ensures CutsInOrder(a[0]) {
        OnlyCutsShare(a[0], b);
      }
    }
  }

  lemma SingleIsShared(id: string) returns (b: seq<string>)
    requires CutsInOrder(id)
    ensures b != [] && FlightKey(b) == FlightKey([id]) && multiset(b) != multiset([id])
  {
    var i :| 0 <= i < |id| && id[i] == ',' && Le(id[..i], id[i + 1..]);
    CutIsAnother(id, i);
    b := [id[..i], id[i + 1..]];
    assert |multiset(b)| == 2 && |multiset([id])| == 1;
  }

  lemma OnlyCutsShare(id: string, b: seq<string>)
    requires b != [] && FlightKey(b) == FlightKey([id])
    ensures b == [id] || CutsInOrder(id)
  {
    if |b| >= 2 {
      AnotherCuts(id, b);
    } else {
      assert b == [b[0]];
      OneId(id);
      OneId(b[0]);
      SameTail("batch:", id, b[0]);
    }
  }

  lemma {:induction false} JoinIsLonger(parts: seq<string>)
    requires parts != []
    ensures forall i :: 0 <= i < |parts| ==> |parts[i]| <= |Join(parts, ",")| && (|parts| > 1 ==> |parts[i]| < |Join(parts, ",")|)
  {
    if |parts| > 1 {
      JoinIsLonger(parts[1..]);
      forall i | 0 < i < |parts| ensures |parts[i]| < |Join(parts, ",")| { assert parts[i] == parts[1..][i - 1]; }
    }
  }

  /** Whoever joins the other's flight is given a wrong answer as soon as the source holds any of the ids. */
  lemma OthersAnswerIff<T>(source: map<string, T>, a: seq<string>)
    requires |a| >= 2
    ensures Restrict(source, IdSet(a)) == Restrict(source, IdSet([JoinedIds(a)]))
            <==> JoinedIds(a) !in source && forall id :: id in a ==> id !in source
  {
    var joined := JoinedIds(a);
    SortedSize(a);
    JoinIsLonger(SortStrings(a));
    forall id | id in a ensures id != joined {
      assert id in multiset(SortStrings(a));
      var i :| 0 <= i < |SortStrings(a)| && SortStrings(a)[i] == id;
    }
    var own, other := Restrict(source, IdSet(a)), Restrict(source, IdSet([joined]));
    assert forall id :: id in other <==> id == joined && id in source;
    assert forall id :: id in own <==> id in a && id in source;
    if own == other {
      assert joined in source ==> joined in other;
      forall id | id in a ensures id !in source { assert id in source ==> id in own; }
    }
  }

  function Restrict<T>(source: map<string, T>, ids: set<string>): map<string, T> {
    map id | id in ids && id in source :: source[id]
  }

  /** The ids in the order of their first appearance. */
  function FirstsOf(ids: seq<string>): seq<string> {
    if ids == [] then []
    else
      var before := ids[..|ids| - 1];
      var last := ids[|ids| - 1];
      if last in before then FirstsOf(before) else FirstsOf(before) + [last]
  }

  function IdSet(ids: seq<string>): set<string> {
    set id | id in ids
  }

  // ----- The source -----

  /** What a fetch of one entity answers: the entity, none, or an error that may mean "not found". */
  datatype Fetched<T> = Found(e: T) | Nothing | Error(notFound: bool)

  ghost predicate Honest<T>(source: map<string, T>, id: string, f: Fetched<T>) {
    match f
    case Found(e) => id in source && e == source[id]
    case Nothing => id !in source
    case Error(notFound) => notFound ==> id !in source
  }

  /** A batch fetch answers with the source's entities among those asked for, in any order. */
  ghost predicate HonestBatch<T>(source: map<string, T>, idOf: T -> string, ids: seq<string>, items: seq<T>) {
    && (forall e :: e in items ==> idOf(e) in ids && idOf(e) in source && source[idOf(e)] == e)
    && (forall id :: id in ids && id in source ==> source[id] in items && idOf(source[id]) == id)
  }

  datatype Reply<T> = Entity(e: T) | NotFound | SourceFailed

  class EntityCache<T(==, !new)> {
    const kb: KeyBuilder
    const negative: bool
    /** What happens to the cache between this client's commands. */
    const others: (nat, Cache<T>) -> Cache<T>
    /** Whether the n-th command fails, and which keys a failing pipeline still writes. */
    const fails: nat -> bool
    const reached: (nat, string) -> bool

    var cache: Cache<T>
    var commands: nat
    var source: map<string, T>
    /** What the source was asked for, fetch after fetch. */
    var asked: seq<seq<string>>

    ghost predicate Coheres(except: set<string>)
      reads this
    {
      Coherent(kb, negative, source, except, cache)
    }

    /** The other clients evict entries, or write what is right for the present source. */
    ghost predicate Rely()
      reads this
    {
      forall n, c, id ::
        && (PositiveOk(kb, source, c, id) ==> PositiveOk(kb, source, others(n, c), id))
        && (NegativeOk(kb, source, c, id) ==> NegativeOk(kb, source, others(n, c), id))
    }

    constructor (kb: KeyBuilder, negative: bool, others: (nat, Cache<T>) -> Cache<T>, fails: nat -> bool,
                 reached: (nat, string) -> bool, source: map<string, T>)
      ensures this.reached == reached
      ensures this.kb == kb && this.negative == negative && this.others == others && this.fails == fails
      ensures this.source == source && cache == map[] && commands == 0 && asked == [] && Coheres({})
    {
      this.kb, this.negative, this.others, this.source := kb, negative, others, source;
      this.fails, this.reached := fails, reached;
      cache, commands, asked := map[], 0, [];
    }

    // ----- Commands -----

    method Command(ghost except: set<string>) returns (ok: bool)
      requires Rely() && Coheres(except)
      modifies this`cache, this`commands
      ensures Coheres(except) && commands == old(commands) + 1 && ok == !fails(old(commands))
      ensures cache == others(old(commands), old(cache))
      ensures forall id :: PositiveOk(kb, source, old(cache), id) ==> PositiveOk(kb, source, cache, id)
    {
      cache := others(commands, cache);
      ok := !fails(commands);
      commands := commands + 1;
    }

    /** A hit, or nothing when the key is absent or the command fails. */
    method Get(id: string) returns (r: Option<T>)
      requires Rely() && Coheres({})
      modifies this`cache, this`commands
      ensures Coheres({}) && cache == others(old(commands), old(cache)) && commands == old(commands) + 1
      ensures r.Some? <==> !fails(old(commands)) && kb.Entity(id) in cache
      ensures r.Some? ==> id in source && r.value == source[id] && cache[kb.Entity(id)] == Ent(r.value)
    {
      var ok := Command({});
      var key := kb.Entity(id);
      assert PositiveOk(kb, source, cache, id);
      if ok && key in cache && cache[key].Ent? {
        return Some(cache[key].e);
      }
      return None;
    }

    method HasMark(id: string) returns (r: bool)
      requires Rely() && Coheres({}) && negative
      modifies this`cache, this`commands
      ensures Coheres({}) && cache == others(old(commands), old(cache)) && commands == old(commands) + 1
      ensures r <==> !fails(old(commands)) && kb.EntityNil(id) in cache && cache[kb.EntityNil(id)] == Mark("1")
      ensures r ==> id !in source
    {
      var ok := Command({});
      var key := kb.EntityNil(id);
      assert NegativeOk(kb, source, cache, id);
      return ok && key in cache && cache[key] == Mark("1");
    }

    method Set(id: string, e: T)
      requires Rely() && Coheres({}) && id in source && source[id] == e
      modifies this`cache, this`commands
      ensures Coheres({}) && commands == old(commands) + 1
      ensures var now := others(old(commands), old(cache));
              cache == if fails(old(commands)) then now else Stored(kb, negative, now, Fill(id, Some(e)))
    {
      var ok := Command({});
      if ok {
        SetKeepsCoherent(kb, negative, source, {}, cache, id);
        cache := cache[kb.Entity(id) := Ent(e)];
      }
    }

    /** SETNX of the mark; nothing at all when negative caching is off. */
    method SetNil(id: string)
      requires Rely() && Coheres({}) && id !in source
      modifies this`cache, this`commands
      ensures Coheres({})
      ensures !negative ==> cache == old(cache) && commands == old(commands)
      ensures negative ==>
        var now := others(old(commands), old(cache));
        && commands == old(commands) + 1
        && cache == if fails(old(commands)) then now else Stored(kb, negative, now, Fill(id, None))
    {
      if !negative {
        return;
      }
      var ok := Command({});
      if ok && kb.EntityNil(id) !in cache {
        MarkKeepsCoherent(kb, negative, source, {}, cache, id);
        cache := cache[kb.EntityNil(id) := Mark("1")];
      }
    }

    // ----- One entity -----

    /** The answer to a read of `id` is now cached, positively or as a mark. */
    ghost predicate Remembers(id: string, r: Reply<T>)
      reads this
    {
      && (r.Entity? ==> kb.Entity(id) in cache && cache[kb.Entity(id)] == Ent(r.e))
      && (r.NotFound? && negative ==> kb.EntityNil(id) in cache)
    }

    ghost predicate NeverFails() {
      forall n :: !fails(n)
    }

    /** Fetches from the source and writes back what it answered. */
    method Load(id: string, fetch: string -> Fetched<T>, bypassWrite: bool) returns (r: Reply<T>)
      requires Rely() && Coheres({}) && Honest(source, id, fetch(id))
      modifies this`cache, this`commands, this`asked
      ensures Coheres({}) && asked == old(asked) + [[id]]
      ensures r == match fetch(id)
                   case Found(e) => Entity(e)
                   case Nothing => NotFound
                   case Error(notFound) => if notFound then NotFound else SourceFailed
      ensures NeverFails() && !bypassWrite ==> Remembers(id, r)
      ensures bypassWrite ==> cache == old(cache)
    {
      asked := asked + [[id]];
      match fetch(id)
      case Error(notFound) =>
        if notFound {
          if !bypassWrite {
            SetNil(id);
          }
          return NotFound;
        }
        return SourceFailed;
      case Nothing =>
        if !bypassWrite {
          SetNil(id);
        }
        return NotFound;
      case Found(e) =>
        if !bypassWrite {
          Set(id, e);
        }
        return Entity(e);
    }

    /** A look into a cache that is `c` before this client's n-th command answers: it finds the entity or its mark. */
    ghost predicate Answers(n: nat, c: Cache<T>, id: string) {
      || (!fails(n) && kb.Entity(id) in others(n, c))
      || (negative && !fails(n + 1) && Marked(others(n + 1, others(n, c)), id))
    }

    /** The cache after a look that does not answer. */
    ghost function AfterLook(n: nat, c: Cache<T>): Cache<T> {
      if negative then others(n + 1, others(n, c)) else others(n, c)
    }

    /** The entity, then its mark: what is known of `id` without the source. */
    method LookFor(id: string) returns (r: Option<Reply<T>>)
      requires Rely() && Coheres({})
      modifies this`cache, this`commands
      ensures Coheres({})
      ensures r.Some? <==> Answers(old(commands), old(cache), id)
      ensures r.Some? ==> r.value == (if id in source then Entity(source[id]) else NotFound) && Remembers(id, r.value)
      ensures r.None? ==> commands == InnerMGet(old(commands)) && cache == AfterLook(old(commands), old(cache))
    {
      var v := Get(id);
      if v.Some? {
        return Some(Entity(v.value));
      }
      if negative {
        var absent := HasMark(id);
        if absent {
          return Some(NotFound);
        }
      }
      return None;
    }

    /** Reading through the cache is reading the source: whatever is cached, whoever else is at work and
        whichever commands fail, only an error of the source itself can come in the way. The source is asked
        only if neither look answers. */
    method GetOrLoad(id: string, fetch: string -> Fetched<T>, bypassRead: bool, bypassWrite: bool) returns (r: Reply<T>)
      requires Rely() && Coheres({}) && Honest(source, id, fetch(id))
      modifies this`cache, this`commands, this`asked
      ensures Coheres({})
      ensures asked == old(asked) +
        if !bypassRead && (Answers(old(commands), old(cache), id)
                           || Answers(InnerMGet(old(commands)), AfterLook(old(commands), old(cache)), id))
        then [] else [[id]]
      ensures r == (if id in source then Entity(source[id]) else NotFound) || r == SourceFailed
      ensures r == SourceFailed ==> fetch(id) == Error(false)
      ensures NeverFails() && !bypassWrite ==> Remembers(id, r)
    {
      if bypassRead {
        r := Load(id, fetch, bypassWrite);
        return;
      }
      var known := LookFor(id);
      if known.Some? {
        return known.value;
      }
      known := LookFor(id);     // in the flight, before it fetches
      if known.Some? {
        return known.value;
      }
      r := Load(id, fetch, bypassWrite);
    }

    // ----- Many entities -----

    /** A failed MGET answers nothing at all. */
    method MGet(ids: seq<string>) returns (ok: bool, items: seq<Option<T>>)
      requires Rely() && Coheres({})
      modifies this`cache, this`commands
      ensures Coheres({}) && ok == !fails(old(commands))
      ensures cache == others(old(commands), old(cache)) && commands == old(commands) + 1
      ensures ok ==> |items| == |ids| && forall i :: 0 <= i < |ids| ==> (items[i].Some? <==> kb.Entity(ids[i]) in cache)
      ensures !ok ==> items == []
      ensures forall i :: 0 <= i < |items| && i < |ids| && items[i].Some? ==> ids[i] in source && items[i].value == source[ids[i]]
    {
      ok := Command({});
      items := [];
      if ok {
        for i := 0 to |ids|
          invariant |items| == i
          invariant forall j :: 0 <= j < i ==> (items[j].Some? <==> kb.Entity(ids[j]) in cache)
          invariant forall j :: 0 <= j < i && items[j].Some? ==> ids[j] in source && items[j].value == source[ids[j]]
        {
          var key := kb.Entity(ids[i]);
          assert PositiveOk(kb, source, cache, ids[i]);
          items := items + [if key in cache && cache[key].Ent? then Some(cache[key].e) else None];
        }
      }
    }

    static method FilledAndMissing(ids: seq<string>, items: seq<Option<T>>) returns (filled: map<string, T>, missing: seq<string>)
      requires |items| <= |ids|
      ensures forall id :: id in filled ==> exists i :: 0 <= i < |items| && ids[i] == id && items[i] == Some(filled[id])
      ensures forall i :: 0 <= i < |items| ==> if items[i].Some? then ids[i] in filled else ids[i] in missing
      ensures forall id :: id in missing ==> exists i :: 0 <= i < |items| && ids[i] == id && items[i].None?
      ensures items == [] ==> filled == map[] && missing == []
    {
      filled, missing := map[], [];
      for i := 0 to |items|
        invariant i == 0 ==> filled == map[] && missing == []
        invariant forall id :: id in filled ==> exists j :: 0 <= j < i && ids[j] == id && items[j] == Some(filled[id])
        invariant forall j :: 0 <= j < i ==> if items[j].Some? then ids[j] in filled else ids[j] in missing
        invariant forall id :: id in missing ==> exists j :: 0 <= j < i && ids[j] == id && items[j].None?
      {
        if items[i].Some? {
          filled := filled[ids[i] := items[i].value];
        } else {
          missing := missing + [ids[i]];
        }
      }
    }

    method FilterByMarks(ids: seq<string>) returns (out: seq<string>)
      requires Rely() && Coheres({}) && negative
      modifies this`cache, this`commands
      ensures Coheres({})
      ensures cache == others(old(commands), old(cache)) && commands == old(commands) + 1
      ensures forall id :: id in out <==> id in ids && (fails(old(commands)) || !Marked(cache, id))
      ensures forall id :: id in ids && id in source ==> id in out
    {
      var ok := Command({});
      if !ok {
        return ids;
      }
      out := [];
      for i := 0 to |ids|
        invariant forall id :: id in out <==> id in ids[..i] && !Marked(cache, id)
        invariant forall j :: 0 <= j < i && ids[j] in source ==> ids[j] in out
      {
        assert ids[..i + 1] == ids[..i] + [ids[i]];
        var key := kb.EntityNil(ids[i]);
        assert NegativeOk(kb, source, cache, ids[i]);
        if !(key in cache && cache[key] == Mark("1")) {
          out := out + [ids[i]];
        }
      }
      assert ids[..|ids|] == ids;
    }

    predicate Marked(c: Cache<T>, id: string) {
      kb.EntityNil(id) in c && c[kb.EntityNil(id)] == Mark("1")
    }

    /** No other client is at work, no command fails, and absent ids are marked. */
    ghost predicate Quiet() {
      negative && NeverFails() && forall n, c :: others(n, c) == c
    }

    ghost predicate Knows(c: Cache<T>, id: string) {
      kb.Entity(id) in c || Marked(c, id)
    }

    /** Nothing but marks stands where marks stand. */
    ghost predicate OnlyMarks(c: Cache<T>) {
      forall id :: kb.EntityNil(id) in c ==> Marked(c, id)
    }

    /** `now` knows what `before` did and the ids as well. */
    ghost predicate Learnt(before: Cache<T>, now: Cache<T>, ids: seq<string>) {
      && (OnlyMarks(before) ==> OnlyMarks(now) && forall id :: id in ids ==> Knows(now, id))
      && (forall id :: Knows(before, id) ==> Knows(now, id))
    }

    /** Caches what was fetched, and marks what was asked for and not found. A pipeline that fails may have
        written some of it. */
    method WriteBack(ids: seq<string>, items: seq<T>, idOf: T -> string) returns (ok: bool)
      requires Rely() && Coheres({}) && HonestBatch(source, idOf, ids, items)
      modifies this`cache, this`commands
      ensures Coheres({})
      ensures ok && !negative ==> forall e :: e in items ==> kb.Entity(idOf(e)) in cache
      ensures ok && negative ==> forall id :: id in ids && id !in source ==> kb.EntityNil(id) in cache
      ensures NeverFails() ==> ok
      ensures Quiet() ==> Learnt(old(cache), cache, ids)
    {
      ghost var before := cache;
      var n := commands;
      ok := Command({});
      for i := 0 to |items|
        invariant Coheres({}) && commands == n + 1
        invariant ok ==> forall j :: 0 <= j < i ==> kb.Entity(idOf(items[j])) in cache
        invariant Quiet() ==> Learnt(before, cache, []) && forall k :: k in before ==> k in cache
      {
        assert items[i] in items;
        if ok || reached(n, kb.Entity(idOf(items[i]))) {
          SetKeepsCoherent(kb, negative, source, {}, cache, idOf(items[i]));
          forall id ensures kb.Entity(idOf(items[i])) != kb.EntityNil(id) { kb.EntityIsNotNil(idOf(items[i]), id); }
          cache := cache[kb.Entity(idOf(items[i])) := Ent(items[i])];
        }
      }
      if ok && negative {
        ok := WriteMarks(ids, items, idOf);
      }
    }

    method WriteMarks(ids: seq<string>, items: seq<T>, idOf: T -> string) returns (ok: bool)
      requires Rely() && Coheres({}) && HonestBatch(source, idOf, ids, items) && negative
      modifies this`cache, this`commands
      ensures Coheres({})
      ensures ok ==> forall id :: id in ids && id !in source ==> kb.EntityNil(id) in cache
      ensures ok == !fails(old(commands))
      ensures Quiet() ==> Learnt(old(cache), cache, []) && forall k :: k in old(cache) ==> k in cache
    {
      ghost var before := cache;
      var found := set e | e in items :: idOf(e);
      var n := commands;
      ok := Command({});
      for i := 0 to |ids|
        invariant Coheres({})
        invariant ok ==> forall j :: 0 <= j < i && ids[j] !in source ==> kb.EntityNil(ids[j]) in cache
        invariant Quiet() ==> Learnt(before, cache, []) && forall k :: k in before ==> k in cache
      {
        assert ids[i] !in found <==> ids[i] !in source by {
          assert ids[i] in source ==> idOf(source[ids[i]]) in found;
        }
        if ids[i] !in found && kb.EntityNil(ids[i]) !in cache && (ok || reached(n, kb.EntityNil(ids[i]))) {
          MarkKeepsCoherent(kb, negative, source, {}, cache, ids[i]);
          cache := cache[kb.EntityNil(ids[i]) := Mark("1")];
        }
      }
    }

    static method ById(items: seq<T>, idOf: T -> string, filled: map<string, T>) returns (r: map<string, T>)
      ensures r.Keys == filled.Keys + set e | e in items :: idOf(e)
      ensures forall id :: id in r ==> (id in filled && r[id] == filled[id]) || (r[id] in items && idOf(r[id]) == id)
    {
      r := filled;
      for i := 0 to |items|
        invariant r.Keys == filled.Keys + set e | e in items[..i] :: idOf(e)
        invariant forall id :: id in r ==> (id in filled && r[id] == filled[id]) || (r[id] in items && idOf(r[id]) == id)
      {
        assert items[..i + 1] == items[..i] + [items[i]];
        r := r[idOf(items[i]) := items[i]];
      }
      assert items[..|items|] == items;
    }

    /** The ids whose entities the first MGET does not answer with, when it is this client's n-th command on
        the cache `c`, less those that the look at the marks then rules out. */
    ghost function Missing(n: nat, c: Cache<T>, ids: set<string>): set<string> {
      var c1 := others(n, c);
      var miss := set id | id in ids && kb.Entity(id) !in c1;
      if negative && !fails(n + 1) then set id | id in miss && !Marked(others(n + 1, c1), id) else miss
    }

    ghost predicate AllHit(n: nat, c: Cache<T>, ids: seq<string>) {
      !fails(n) && forall id :: id in ids ==> kb.Entity(id) in others(n, c)
    }

    /** An MGET and the look at the marks of what it misses: the first time, and again in the flight. */
    method Look(unique: seq<string>) returns (got: bool, result: map<string, T>, missing: seq<string>)
      requires Rely() && Coheres({})
      modifies this`cache, this`commands
      ensures Coheres({}) && got == !fails(old(commands))
      ensures got ==> IdSet(missing) == Missing(old(commands), old(cache), IdSet(unique))
      ensures !got ==> result == map[] && missing == []
      ensures Quiet() ==> cache == old(cache) && forall id :: id in unique ==> Knows(cache, id) || id in missing
      ensures AllHit(old(commands), old(cache), unique) ==> commands == old(commands) + 1
      ensures got && missing != [] ==> commands == InnerMGet(old(commands)) && cache == AfterLook(old(commands), old(cache))
      ensures got ==> forall id :: id in result <==> id in unique && kb.Entity(id) in others(old(commands), old(cache))
      ensures got ==> forall id :: id in result ==> id in source && result[id] == source[id]
      ensures got ==> forall id :: id in missing ==> id in unique && id !in result
      ensures got ==> forall id :: id in unique && id in source ==> id in result || id in missing
    {
      var items;
      got, items := MGet(unique);
      result, missing := FilledAndMissing(unique, items);
      if !got {
        return;
      }
      ghost var found := set id | id in unique && kb.Entity(id) in cache;
      assert IdSet(missing) == IdSet(unique) - found && result.Keys == found;
      AskedOnce([], missing);
      if negative && |missing| > 0 {
        missing := FilterByMarks(missing);
      }
      assert IdSet(missing) == Missing(old(commands), old(cache), IdSet(unique));
    }

    /** The flight: looks again, then fetches what is still missing. An MGET that fails here leaves
        nothing to fetch, and all the ids are `dropped` without an error. */
    method Flight(ids: seq<string>, fetch: seq<string> -> Option<seq<T>>, idOf: T -> string, bypassWrite: bool)
      returns (r: map<string, T>, ok: bool, ghost dropped: set<string>)
      requires Rely() && Coheres({})
      requires forall s: seq<string> :: fetch(s).Some? ==> HonestBatch(source, idOf, s, fetch(s).value)
      modifies this`cache, this`commands, this`asked
      ensures Coheres({})
      ensures AskedFor(old(asked), asked,
                       if fails(old(commands)) then {} else Missing(old(commands), old(cache), IdSet(ids)))
      ensures ok ==> r == Restrict(source, IdSet(ids) - dropped)
      ensures dropped == if fails(old(commands)) then IdSet(ids) else {}
      ensures Quiet() && ok && !bypassWrite ==> Learnt(old(cache), cache, ids)
      ensures NeverFails() && !ok ==> |asked| > 0 && fetch(asked[|asked| - 1]).None?
      ensures fails(old(commands)) ==> ok
    {
      var got, filled, still := Look(ids);
      dropped := if got then {} else IdSet(ids);
      AskedOnce(asked, still);
      FirstPass(source, IdSet(ids) - dropped, filled, IdSet(still));
      if |still| == 0 {
        return filled, true, dropped;
      }
      r, ok := FetchStill(ids, still, filled, fetch, idOf, bypassWrite);
    }

    method FetchStill(ghost ids: seq<string>, still: seq<string>, filled: map<string, T>,
                      fetch: seq<string> -> Option<seq<T>>, idOf: T -> string, bypassWrite: bool)
      returns (r: map<string, T>, ok: bool)
      requires Rely() && Coheres({})
      requires fetch(still).Some? ==> HonestBatch(source, idOf, still, fetch(still).value)
      requires forall id :: id in filled ==> id in ids && id in source && filled[id] == source[id]
      requires forall id :: id in ids && id in source ==> id in filled || id in still
      requires forall id :: id in still ==> id in ids
      modifies this`cache, this`commands, this`asked
      ensures Coheres({}) && asked == old(asked) + [still]
      ensures ok ==> r == Restrict(source, IdSet(ids))
      ensures Quiet() && ok && !bypassWrite ==> Learnt(old(cache), cache, still)
      ensures NeverFails() && !ok ==> |asked| > 0 && fetch(asked[|asked| - 1]).None?
    {
      asked := asked + [still];
      var fetched := fetch(still);
      if fetched.None? {
        return map[], false;
      }
      if !bypassWrite {
        var written := WriteBack(still, fetched.value, idOf);
        if !written {
          return map[], false;
        }
      }
      r := ById(fetched.value, idOf, filled);
      ok := true;
      forall id | id in still && id in source ensures id in r {
        assert source[id] in fetched.value && idOf(source[id]) == id;
      }
    }

    static method Deduplicate(ids: seq<string>) returns (out: seq<string>)
      ensures out == FirstsOf(ids) && IdSet(out) == IdSet(ids)
      ensures forall i, j :: 0 <= i < j < |out| ==> out[i] != out[j]
    {
      out := [];
      for i := 0 to |ids|
        invariant out == FirstsOf(ids[..i])
        invariant forall id :: id in out <==> id in ids[..i]
        invariant forall i, j :: 0 <= i < j < |out| ==> out[i] != out[j]
      {
        assert ids[..i + 1] == ids[..i] + [ids[i]] && ids[..i + 1][..i] == ids[..i];
        if ids[i] !in out {
          out := out + [ids[i]];
        }
      }
      assert ids[..|ids|] == ids;
    }

    /** One more fetch, for just these ids; no fetch for none. */
    static ghost predicate AskedFor(before: seq<seq<string>>, after: seq<seq<string>>, ids: set<string>) {
      if ids == {} then after == before
      else |after| == |before| + 1 && after[..|before|] == before && IdSet(after[|before|]) == ids
    }

    static lemma AskedOnce(before: seq<seq<string>>, ids: seq<string>)
      ensures ids != [] ==> AskedFor(before, before + [ids], IdSet(ids))
      ensures ids == [] <==> IdSet(ids) == {}
    {
      if ids != [] { assert ids[0] in IdSet(ids); }
    }

    /** The ids that neither look answers. A failing MGET leaves nothing to ask for. */
    ghost function Unanswered(n: nat, c: Cache<T>, ids: set<string>): set<string> {
      if fails(n) || Missing(n, c, ids) == {} || fails(InnerMGet(n)) then {}
      else Missing(InnerMGet(n), AfterLook(n, c), Missing(n, c, ids))
    }

    /** The number of the MGET inside the flight, for a batch whose first command is the n-th. */
    function InnerMGet(n: nat): nat {
      n + if negative then 2 else 1
    }

    /** The ids that the flight drops without an error: all that are missing, exactly if its MGET fails. */
    ghost function Dropped(n: nat, c: Cache<T>, ids: set<string>, bypassRead: bool): set<string> {
      if !bypassRead && !fails(n) && fails(InnerMGet(n)) then Missing(n, c, ids) else {}
    }

    /** Dropping ids shortens the answer exactly if the first MGET misses one that exists. */
    lemma DroppedMatters(ids: set<string>, bypassRead: bool)
      requires Rely() && Coheres({}) && !fails(commands)
      ensures Restrict(source, ids - Dropped(commands, cache, ids, bypassRead)) == Restrict(source, ids) <==>
        (!bypassRead && fails(InnerMGet(commands)) ==>
           forall id :: id in ids && id in source ==> kb.Entity(id) in others(commands, cache))
    {
      var c1 := others(commands, cache);
      var found := set id | id in ids && kb.Entity(id) in c1;
      forall id | id in ids - found && id in source ensures id in Missing(commands, cache, ids) {
        assert kb.Entity(id) !in c1;
        if negative {
          assert NegativeOk(kb, source, cache, id);
          assert NegativeOk(kb, source, c1, id);
          assert NegativeOk(kb, source, others(commands + 1, c1), id);
          assert !Marked(others(commands + 1, c1), id);
        }
      }
      ShortIff(source, ids, Missing(commands, cache, ids), found);
      assert ids - {} == ids;
    }

    /** Reading many ids is restricting the source to them, duplicates or not, except for the ids that a
        failing MGET inside the flight drops: then only what the first MGET found is answered, as a success. So
        the answer is short exactly if that MGET fails and the first one had missed an id that exists. The
        source is asked once, for just the ids that neither look answers. If the first MGET finds them all, it is
        the only command. */
    method MGetOrLoad(ids: seq<string>, fetch: seq<string> -> Option<seq<T>>, idOf: T -> string, bypassRead: bool, bypassWrite: bool)
      returns (r: map<string, T>, ok: bool)
      requires Rely() && Coheres({})
      requires forall s: seq<string> :: fetch(s).Some? ==> HonestBatch(source, idOf, s, fetch(s).value)
      modifies this`cache, this`commands, this`asked
      ensures !bypassRead && ids != [] && AllHit(old(commands), old(cache), ids) ==> commands == old(commands) + 1
      ensures Coheres({})
      ensures AskedFor(old(asked), asked,
                       if bypassRead then IdSet(ids) else Unanswered(old(commands), old(cache), IdSet(ids)))
      ensures ok ==> r == Restrict(source, IdSet(ids) - Dropped(old(commands), old(cache), IdSet(ids), bypassRead))
      ensures ok ==> (r == Restrict(source, IdSet(ids)) <==>
        (!bypassRead && fails(InnerMGet(old(commands))) ==>
          forall id :: id in ids && id in source ==> kb.Entity(id) in others(old(commands), old(cache))))
      ensures !bypassRead && ids != [] && fails(old(commands)) ==> !ok
      ensures !bypassRead && !fails(old(commands)) && fails(InnerMGet(old(commands))) ==> ok
      ensures Quiet() && ok && !bypassWrite ==> Learnt(old(cache), cache, ids)
      ensures NeverFails() && !ok ==> |asked| > 0 && fetch(asked[|asked| - 1]).None?
    {
      AskedOnce(asked, ids);
      if |ids| == 0 {
        assert Unanswered(commands, cache, {}) == {};
        return map[], true;
      }
      var unique := Deduplicate(ids);
      AskedOnce(asked, unique);
      if !fails(commands) { DroppedMatters(IdSet(ids), bypassRead); }
      ghost var start := commands;
      assert forall id :: id in unique <==> id in IdSet(ids);
      if bypassRead {
        r, ok := LoadAll(unique, fetch, idOf, bypassWrite);
      } else {
        r, ok := LookAndLoad(unique, fetch, idOf, bypassWrite);
        assert fails(start) ==> !ok;
      }
    }

    /** What the flight gives is added to what the first look found. */
    method FlyAndMerge(ghost ids: set<string>, result: map<string, T>, missing: seq<string>,
                       fetch: seq<string> -> Option<seq<T>>, idOf: T -> string, bypassWrite: bool)
      returns (r: map<string, T>, ok: bool)
      requires Rely() && Coheres({})
      requires forall s: seq<string> :: fetch(s).Some? ==> HonestBatch(source, idOf, s, fetch(s).value)
      requires forall id :: id in result ==> id in ids && id in source && result[id] == source[id]
      requires forall id :: id in ids && id in source ==> id in result || id in missing
      requires forall id :: id in missing ==> id in ids && id !in result
      modifies this`cache, this`commands, this`asked
      ensures Coheres({})
      ensures AskedFor(old(asked), asked,
                       if fails(old(commands)) then {} else Missing(old(commands), old(cache), IdSet(missing)))
      ensures ok ==> r == Restrict(source, ids - if fails(old(commands)) then IdSet(missing) else {})
      ensures fails(old(commands)) ==> ok
      ensures Quiet() && ok && !bypassWrite ==> Learnt(old(cache), cache, missing)
      ensures NeverFails() && !ok ==> |asked| > 0 && fetch(asked[|asked| - 1]).None?
    {
      var more;
      ghost var dropped;
      more, ok, dropped := Flight(missing, fetch, idOf, bypassWrite);
      if !ok {
        return result, false;
      }
      r := result + more;
      BothPasses(source, ids, result, IdSet(missing), more, dropped);
      assert dropped - result.Keys == dropped;
    }

    lemma LearntAll(before: Cache<T>, now: Cache<T>, ids: seq<string>, missing: seq<string>)
      requires Learnt(before, now, missing) && forall id :: id in ids ==> Knows(before, id) || id in missing
      ensures Learnt(before, now, ids)
    {
    }

    /** The path through the cache. */
    method LookAndLoad(unique: seq<string>, fetch: seq<string> -> Option<seq<T>>, idOf: T -> string, bypassWrite: bool)
      returns (r: map<string, T>, ok: bool)
      requires Rely() && Coheres({})
      requires forall s: seq<string> :: fetch(s).Some? ==> HonestBatch(source, idOf, s, fetch(s).value)
      modifies this`cache, this`commands, this`asked
      ensures AllHit(old(commands), old(cache), unique) ==> commands == old(commands) + 1
      ensures Coheres({})
      ensures AskedFor(old(asked), asked, Unanswered(old(commands), old(cache), IdSet(unique)))
      ensures ok ==> r == Restrict(source, IdSet(unique) - Dropped(old(commands), old(cache), IdSet(unique), false))
      ensures fails(old(commands)) ==> !ok
      ensures !fails(old(commands)) && fails(InnerMGet(old(commands))) ==> ok
      ensures Quiet() && ok && !bypassWrite ==> Learnt(old(cache), cache, unique)
      ensures NeverFails() && !ok ==> |asked| > 0 && fetch(asked[|asked| - 1]).None?
    {
      ghost var n, c, ids := commands, cache, IdSet(unique);
      var got, result, missing := Look(unique);
      if !got {
        return map[], false;
      }
      AskedOnce([], missing);
      if |missing| == 0 {
        FirstPass(source, ids, result, {});
        assert ids - {} == ids;
        return result, true;
      }
      assert commands == InnerMGet(n) && cache == AfterLook(n, c) && IdSet(missing) == Missing(n, c, ids) != {};
      r, ok := FlyAndMerge(ids, result, missing, fetch, idOf, bypassWrite);
      if Quiet() && ok && !bypassWrite { LearntAll(c, cache, unique, missing); }
    }

    /** The path that does not look into the cache. */
    method LoadAll(unique: seq<string>, fetch: seq<string> -> Option<seq<T>>, idOf: T -> string, bypassWrite: bool)
      returns (r: map<string, T>, ok: bool)
      requires Rely() && Coheres({})
      requires fetch(unique).Some? ==> HonestBatch(source, idOf, unique, fetch(unique).value)
      modifies this`cache, this`commands, this`asked
      ensures Coheres({}) && asked == old(asked) + [unique]
      ensures Quiet() && ok && !bypassWrite ==> Learnt(old(cache), cache, unique)
      ensures NeverFails() && !ok ==> |asked| > 0 && fetch(asked[|asked| - 1]).None?
      ensures ok ==> r == Restrict(source, IdSet(unique))
    {
      r, ok := map[], true;
      asked := asked + [unique];
      var fetched := fetch(unique);
      if fetched.None? {
        return map[], false;
      }
      if !bypassWrite {
        ok := WriteBack(unique, fetched.value, idOf);
        if !ok {
          return;
        }
      }
      r := ById(fetched.value, idOf, map[]);
      forall id | id in unique && id in source ensures id in r { assert source[id] in fetched.value; }
    }

    // ----- Writes to the source -----

    /** A write to the source can make the cache wrong about that id alone. */
    method WriteSource(id: string, e: Option<T>)
      requires Coheres({})
      modifies this`source
      ensures source == if e.Some? then old(source)[id := e.value] else old(source) - {id}
      ensures Coheres({id})
    {
      source := if e.Some? then source[id := e.value] else source - {id};
    }

    /** `Invalidate` makes the cache coherent again unless one of its commands fails, which it reports. */
    method Invalidate(id: string) returns (ok: bool)
      requires Rely() && Coheres({id})
      modifies this`cache, this`commands
      ensures ok ==> Coheres({})
      ensures Coheres({id})
      ensures ok <==> !fails(old(commands)) && (negative ==> !fails(old(commands) + 1))
    {
      ok := Command({id});
      if ok {
        RemovalKeepsCoherent(kb, negative, source, {id}, cache, {kb.Entity(id)});
        cache := cache - {kb.Entity(id)};
      }
      assert ok ==> PositiveOk(kb, source, cache, id);
      if negative {
        ghost var before := cache;
        var ok2 := Command({id});
        assert PositiveOk(kb, source, before, id) ==> PositiveOk(kb, source, cache, id);
        if ok2 {
          RemovalKeepsCoherent(kb, negative, source, {id}, cache, {kb.EntityNil(id)});
          cache := cache - {kb.EntityNil(id)};
        }
        ok := ok && ok2;
      }
    }
  }

  lemma NothingMissing<T(!new)>(reader: EntityCache<T>, n: nat, c: Cache<T>, ids: seq<string>)
    requires reader.Quiet() && forall id :: id in ids ==> reader.Knows(c, id)
    ensures reader.Unanswered(n, c, IdSet(ids)) == {} && reader.Dropped(n, c, IdSet(ids), false) == {}
    ensures IdSet(ids) - {} == IdSet(ids)
  {
    assert reader.Missing(n, c, IdSet(ids)) == {};
  }

  /** What has been read once is not asked for again, whether it exists or not: on a quiet cache a second read gives
      the same answer and leaves the source alone. */
  method ReadTwice<T(==, !new)>(reader: EntityCache<T>, ids: seq<string>, fetch: seq<string> -> Option<seq<T>>, idOf: T -> string)
    returns (first: map<string, T>, second: map<string, T>, ok: bool)
    requires reader.Rely() && reader.Coheres({}) && reader.Quiet() && reader.OnlyMarks(reader.cache)
    requires forall s: seq<string> :: fetch(s).Some? ==> HonestBatch(reader.source, idOf, s, fetch(s).value)
    modifies reader`cache, reader`commands, reader`asked
    ensures ok ==> first == second == Restrict(reader.source, IdSet(ids))
    ensures ok ==> |reader.asked| <= |old(reader.asked)| + 1
    ensures ok ==> forall id :: id in ids ==> reader.Knows(reader.cache, id)
    ensures !ok ==> |reader.asked| > 0 && fetch(reader.asked[|reader.asked| - 1]).None?
  {
    first, ok := reader.MGetOrLoad(ids, fetch, idOf, false, false);
    if !ok {
      return first, map[], false;
    }
    NothingMissing(reader, reader.commands, reader.cache, ids);
    second, ok := reader.MGetOrLoad(ids, fetch, idOf, false, false);
  }

  /** A read that succeeds without an entity that exists: of all commands, only the MGET in the flight fails. */
  method MissesWithoutError<T(==, !new)>(kb: KeyBuilder, id: string, e: T) returns (r: map<string, T>, ok: bool)
    ensures ok && r == map[] && Restrict(map[id := e], IdSet([id])) == map[id := e]
  {
    var reader := new EntityCache<T>(kb, false, (n, c) => c, n => n == 1, (n, k) => false, map[id := e]);
    var fetch: seq<string> -> Option<seq<T>> := ids => Some(if id in ids then [e] else []);
    r, ok := reader.MGetOrLoad([id], fetch, x => id, false, false);
    assert reader.Dropped(0, map[], IdSet([id]), false) == {id};
  }

  // ----- Putting the two looks together -----

  lemma FirstPass<T>(source: map<string, T>, ids: set<string>, result: map<string, T>, missing: set<string>)
    requires forall id :: id in result ==> id in ids && id in source && result[id] == source[id]
    requires forall id :: id in ids && id in source ==> id in result || id in missing
    ensures missing == {} ==> result == Restrict(source, ids)
  {
  }

  lemma BothPasses<T>(source: map<string, T>, ids: set<string>, result: map<string, T>, missing: set<string>,
                      more: map<string, T>, dropped: set<string>)
    requires forall id :: id in result ==> id in ids && id in source && result[id] == source[id]
    requires forall id :: id in ids && id in source ==> id in result || id in missing
    requires missing <= ids && dropped <= missing
    requires more == Restrict(source, missing - dropped)
    ensures result + more == Restrict(source, ids - (dropped - result.Keys))
  {
  }

  /** Leaving out what is missing shortens the answer exactly if an id that exists was not found. */
  lemma ShortIff<T>(source: map<string, T>, ids: set<string>, missing: set<string>, found: set<string>)
    requires missing <= ids - found && forall id :: id in ids - found && id in source ==> id in missing
    ensures Restrict(source, ids - missing) == Restrict(source, ids) <==> forall id :: id in ids && id in source ==> id in found
  {
    if id :| id in ids && id in source && id !in found {
      assert id in Restrict(source, ids) && id !in Restrict(source, ids - missing);
    }
  }
}
