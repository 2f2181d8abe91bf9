/** Readers fetch from the source at one moment and write back at a later one; writers change the source and
    invalidate in between. What the cache then holds for an id. */
module LateFill {
  import opened Results
  import opened Keys
  import opened EntityCache

  function Lookup<T>(source: map<string, T>, id: string): Option<T> {
    if id in source then Some(source[id]) else None
  }

  /** `fills` are what readers have fetched and not yet written back. */
  datatype Sys<T> = Sys(source: map<string, T>, cache: Cache<T>, fills: seq<Fill<T>>)

  datatype Step<T> =
    | Fetch(id: string)
    | WriteBack(i: nat)
    | Write(id: string, e: Option<T>)
    | Invalidate(id: string)
    | Evict(keys: set<string>)

  function Next<T>(kb: KeyBuilder, negative: bool, s: Sys<T>, step: Step<T>): Sys<T> {
    match step
    case Fetch(id) => s.(fills := s.fills + [Fill(id, Lookup(s.source, id))])
    case WriteBack(i) =>
      if i < |s.fills|
      then s.(cache := Stored(kb, negative, s.cache, s.fills[i]), fills := s.fills[..i] + s.fills[i + 1..]) else s
    case Write(id, e) => s.(source := if e.Some? then s.source[id := e.value] else s.source - {id})
    case Invalidate(id) => s.(cache := s.cache - KeysOf(kb, negative, id))
    case Evict(keys) => s.(cache := s.cache - keys)
  }

  function Run<T>(kb: KeyBuilder, negative: bool, s: Sys<T>, steps: seq<Step<T>>): Sys<T>
    decreases |steps|
  {
    if steps == [] then s else Run(kb, negative, Next(kb, negative, s, steps[0]), steps[1..])
  }

  /** The cache is right about `id`. */
  ghost predicate RightAt<T>(kb: KeyBuilder, negative: bool, s: Sys<T>, id: string) {
    PositiveOk(kb, s.source, s.cache, id) && (negative ==> NegativeOk(kb, s.source, s.cache, id))
  }

  /** Writing this back would not change what the cache says about the id, or would say what the source does. */
  ghost predicate Current<T>(negative: bool, s: Sys<T>, f: Fill<T>) {
    f.e == Lookup(s.source, f.id) || (f.e.None? && !negative)
  }

  /** What one write-back does: it leaves the id right exactly if the source still holds what was fetched, or
      there is nothing to write because a mark is not wanted or its key is taken. */
  lemma WriteBackIff<T>(kb: KeyBuilder, negative: bool, s: Sys<T>, i: nat)
    requires i < |s.fills| && RightAt(kb, negative, s, s.fills[i].id)
    ensures RightAt(kb, negative, Next(kb, negative, s, WriteBack(i)), s.fills[i].id) <==>
      Current(negative, s, s.fills[i]) || (s.fills[i].e.None? && kb.EntityNil(s.fills[i].id) in s.cache)
  {
    kb.EntityIsNotNil(s.fills[i].id, s.fills[i].id);
  }

  lemma StoredElsewhere<T>(kb: KeyBuilder, negative: bool, cache: Cache<T>, f: Fill<T>, id: string)
    requires f.id != id
    ensures var c := Stored(kb, negative, cache, f);
      && (kb.Entity(id) in c <==> kb.Entity(id) in cache)
      && (kb.Entity(id) in cache ==> c[kb.Entity(id)] == cache[kb.Entity(id)])
      && (kb.EntityNil(id) in c <==> kb.EntityNil(id) in cache)
      && (kb.EntityNil(id) in cache ==> c[kb.EntityNil(id)] == cache[kb.EntityNil(id)])
  {
    kb.EntityIsNotNil(f.id, id);
    kb.EntityIsNotNil(id, f.id);
    if kb.Entity(f.id) == kb.Entity(id) { kb.EntityInjective(f.id, id); }
    if kb.EntityNil(f.id) == kb.EntityNil(id) { kb.EntityNilInjective(f.id, id); }
  }

  /** The id is right, and no write-back that is still to come can make it wrong. */
  ghost predicate Settled<T>(kb: KeyBuilder, negative: bool, s: Sys<T>, id: string) {
    RightAt(kb, negative, s, id) && forall f :: f in s.fills && f.id == id ==> Current(negative, s, f)
  }

  predicate Rewrites<T>(step: Step<T>, id: string) {
    step.Write? && step.id == id
  }

  lemma StepKeepsSettled<T>(kb: KeyBuilder, negative: bool, s: Sys<T>, step: Step<T>, id: string)
    requires Settled(kb, negative, s, id) && !Rewrites(step, id)
    ensures Settled(kb, negative, Next(kb, negative, s, step), id)
  {
    if step.WriteBack? && step.i < |s.fills| {
      var f := s.fills[step.i];
      assert f in s.fills;
      if f.id == id { WriteBackIff(kb, negative, s, step.i); } else { StoredElsewhere(kb, negative, s.cache, f, id); }
    }
  }

  lemma {:induction false} RunKeepsSettled<T>(kb: KeyBuilder, negative: bool, s: Sys<T>, steps: seq<Step<T>>, id: string)
    requires Settled(kb, negative, s, id) && forall i :: 0 <= i < |steps| ==> !Rewrites(steps[i], id)
    ensures Settled(kb, negative, Run(kb, negative, s, steps), id)
    decreases |steps|
  {
    if steps != [] {
      StepKeepsSettled(kb, negative, s, steps[0], id);
      RunKeepsSettled(kb, negative, Next(kb, negative, s, steps[0]), steps[1..], id);
    }
  }

  /** As long as the source does not change at `id`, the cache stays right about it. */
  ghost predicate StaysRight<T(!new)>(kb: KeyBuilder, negative: bool, s: Sys<T>, id: string) {
    forall steps: seq<Step<T>> :: (forall i :: 0 <= i < |steps| ==> !Rewrites(steps[i], id))
      ==> RightAt(kb, negative, Run(kb, negative, s, steps), id)
  }

  /** An invalidation lasts exactly if no reader still holds something else than what the source has. */
  lemma {:induction false} InvalidationLastsIff<T(!new)>(kb: KeyBuilder, negative: bool, s: Sys<T>, id: string)
    ensures StaysRight(kb, negative, Next(kb, negative, s, Invalidate(id)), id) <==>
      forall f :: f in s.fills && f.id == id ==> Current(negative, s, f)
  {
    var s1 := Next(kb, negative, s, Invalidate(id));
    if forall f :: f in s.fills && f.id == id ==> Current(negative, s, f) {
      forall steps: seq<Step<T>> | forall i :: 0 <= i < |steps| ==> !Rewrites(steps[i], id)
        ensures RightAt(kb, negative, Run(kb, negative, s1, steps), id)
      {
        RunKeepsSettled(kb, negative, s1, steps, id);
      }
    } else {
      var f :| f in s.fills && f.id == id && !Current(negative, s, f);
      var i :| 0 <= i < |s.fills| && s.fills[i] == f;
      WriteBackIff(kb, negative, s1, i);
      OneStep(kb, negative, s1, WriteBack(i));
    }
  }

  lemma OneStep<T>(kb: KeyBuilder, negative: bool, s: Sys<T>, step: Step<T>)
    ensures Run(kb, negative, s, [step]) == Next(kb, negative, s, step)
  {
    assert [step][1..] == [];
  }

  /** A write and its invalidation leave the id settled, whatever the cache said, if no reader of it is under way. */
  lemma WriteAndInvalidateSettle<T>(kb: KeyBuilder, negative: bool, s: Sys<T>, id: string, e: Option<T>)
    requires forall f :: f in s.fills ==> f.id != id
    ensures Settled(kb, negative, Next(kb, negative, Next(kb, negative, s, Write(id, e)), Invalidate(id)), id)
  {
  }

  /** A reader is done once it has written back: if it was the only one, a write and its invalidation settle the id. */
  lemma DoneReadersSettle<T>(kb: KeyBuilder, negative: bool, s: Sys<T>, i: nat, e: Option<T>)
    requires i < |s.fills| && forall j :: 0 <= j < |s.fills| && j != i ==> s.fills[j].id != s.fills[i].id
    ensures var id := s.fills[i].id;
      var s1 := Next(kb, negative, s, WriteBack(i));
      Settled(kb, negative, Next(kb, negative, Next(kb, negative, s1, Write(id, e)), Invalidate(id)), id)
  {
    var s1 := Next(kb, negative, s, WriteBack(i));
    forall f | f in s1.fills ensures f.id != s.fills[i].id {
      var j :| 0 <= j < |s1.fills| && s1.fills[j] == f;
      assert f == s.fills[if j < i then j else j + 1];
    }
    WriteAndInvalidateSettle(kb, negative, s1, s.fills[i].id, e);
  }

  /** The race: a reader fetches, the source changes and is invalidated, and the reader writes back. The cache
      then holds the old entity, for every id and every change of it, and keeps it. */
  lemma StaleAfterInvalidate<T>(kb: KeyBuilder, negative: bool, s: Sys<T>, id: string, e: Option<T>)
    requires id in s.source && e != Some(s.source[id])
    ensures var steps := [Fetch(id), Write(id, e), Invalidate(id), WriteBack(|s.fills|)];
      var s' := Run(kb, negative, s, steps);
      && Lookup(s'.source, id) == e
      && kb.Entity(id) in s'.cache && s'.cache[kb.Entity(id)] == Ent(s.source[id])
      && !RightAt(kb, negative, s', id)
  {
    var s1 := Next(kb, negative, s, Fetch(id));
    var s2 := Next(kb, negative, s1, Write(id, e));
    var s3 := Next(kb, negative, s2, Invalidate(id));
    Unfold(kb, negative, s, [Fetch(id), Write(id, e), Invalidate(id), WriteBack(|s.fills|)]);
    Unfold(kb, negative, s1, [Write(id, e), Invalidate(id), WriteBack(|s.fills|)]);
    Unfold(kb, negative, s2, [Invalidate(id), WriteBack(|s.fills|)]);
    Unfold(kb, negative, s3, [WriteBack(|s.fills|)]);
    assert s3.fills[|s.fills|] == Fill(id, Some(s.source[id]));
  }

  lemma Unfold<T>(kb: KeyBuilder, negative: bool, s: Sys<T>, steps: seq<Step<T>>)
    requires steps != []
    ensures Run(kb, negative, s, steps) == Run(kb, negative, Next(kb, negative, s, steps[0]), steps[1..])
  {
  }
}
