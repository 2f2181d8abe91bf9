/** The version provider: a process-local copy of a version number that lives in Redis, with a time to
    live, invalidation by published messages, and at most one load in flight per version.
    Versions are decimal strings in the code and numbers here. */
module Versions {
  import opened Results

  // ----- Names -----

  function VerKey(prefix: string, ns: string, suffix: string): string {
    "ver:" + prefix + ":" + ns + ":" + suffix
  }

  function LocalKey(prefix: string, ns: string, suffix: string): string {
    prefix + ":" + ns + ":" + suffix
  }

  /** Two versions share a local entry exactly when they share their Redis key, so one name suffices. */
  lemma KeysAgree(p: string, n: string, s: string, p': string, n': string, s': string)
    ensures LocalKey(p, n, s) == LocalKey(p', n', s') <==> VerKey(p, n, s) == VerKey(p', n', s')
  {
    assert VerKey(p, n, s) == "ver:" + LocalKey(p, n, s);
    assert VerKey(p', n', s') == "ver:" + LocalKey(p', n', s');
    assert VerKey(p, n, s)[4..] == LocalKey(p, n, s) && VerKey(p', n', s')[4..] == LocalKey(p', n', s');
  }

  // ----- The provider's own steps -----

  datatype Entry = Entry(v: int, expire: int)

  function Fresh(cache: map<string, Entry>, name: string, now: int): Option<int> {
    if name in cache && now < cache[name].expire then Some(cache[name].v) else None
  }

  /** What a load reads: an absent key counts as version 1. */
  function Load(redis: map<string, int>, name: string): int {
    if name in redis then redis[name] else 1
  }

  /** INCR. */
  function Bumped(redis: map<string, int>, name: string): map<string, int> {
    redis[name := (if name in redis then redis[name] else 0) + 1]
  }

  /** A bump changes what the next load returns, except the first one on an absent key. */
  lemma BumpIsSeenIff(redis: map<string, int>, name: string)
    ensures Load(Bumped(redis, name), name) != Load(redis, name) <==> name in redis
    ensures Load(redis, name) <= Load(Bumped(redis, name), name)
    ensures forall other :: other != name ==> Load(Bumped(redis, name), other) == Load(redis, other)
  {
  }

  class VerProvider {
    const ttl: int
    var cache: map<string, Entry>
    var redis: map<string, int>
    var published: seq<string>

    constructor (ttl: int, redis: map<string, int>)
      ensures this.ttl == (if ttl <= 0 then 30 * 60 else ttl) && this.ttl > 0
      ensures this.redis == redis && cache == map[] && published == []
    {
      this.ttl := if ttl <= 0 then 30 * 60 else ttl;
      this.redis, cache, published := redis, map[], [];
    }

    method Lookup(name: string, now: int) returns (v: Option<int>)
      ensures v == Fresh(cache, name, now)
    {
      if name in cache {
        var e := cache[name];
        if now < e.expire {
          return Some(e.v);
        }
      }
      return None;
    }

    /** The load inside a flight: read at one moment, stored with a fresh time to live at a later one. */
    method Store(name: string, v: int, now: int)
      modifies this`cache
      ensures cache == old(cache)[name := Entry(v, now + ttl)]
      ensures Fresh(cache, name, now) == if ttl > 0 then Some(v) else None
    {
      cache := cache[name := Entry(v, now + ttl)];
    }

    method Deliver(payload: string)
      modifies this`cache
      ensures cache == old(cache) - {payload}
    {
      cache := cache - {payload};
    }

    method Bump(name: string)
      modifies this`redis, this`published
      ensures redis == Bumped(old(redis), name)
      ensures published == old(published) + [name]
    {
      var v := 1 + if name in redis then redis[name] else 0;
      redis := redis[name := v];
      published := published + [name];
    }
  }

  // ----- Runs of one version name -----

  /** Redis starts with `first`, if anything, and is bumped at the given moments. */
  datatype History = History(first: Option<int>, bumps: seq<int>)
  {
    function Version(n: nat): int {
      match first
      case None => if n == 0 then 1 else n
      case Some(v) => v + n
    }

    /** `r` is a moment at which exactly `n` of the bumps had happened. */
    predicate During(n: nat, r: int) {
      n <= |bumps| && (n > 0 ==> bumps[n - 1] <= r) && (n < |bumps| ==> r <= bumps[n])
    }
  }

  function BumpedTimes(redis: map<string, int>, name: string, n: nat): map<string, int> {
    if n == 0 then redis else Bumped(BumpedTimes(redis, name, n - 1), name)
  }

  /** The versions of a history are what loads read from Redis after so many bumps. */
  lemma {:induction false} HistoryIsRedis(redis: map<string, int>, name: string, bumps: seq<int>, n: nat)
    ensures Load(BumpedTimes(redis, name, n), name) ==
            History(if name in redis then Some(redis[name]) else None, bumps).Version(n)
    ensures n > 0 ==> name in BumpedTimes(redis, name, n)
  {
    if n > 0 { HistoryIsRedis(redis, name, bumps, n - 1); }
  }

  /** A load that has read Redis after `n` bumps, at `readAt`. */
  datatype Read = Read(n: nat, readAt: int)
  datatype Stored = Stored(read: Read, storedAt: int)
  datatype Return = Return(v: int, at: int)

  datatype Sys = Sys(
    now: int,
    history: History,
    local: Option<Stored>,
    flight: Option<Read>,
    stores: seq<nat>,       // the bumps seen by each stored version, in the order of storing
    answers: seq<Return>)

  datatype Config = Config(ttl: int, latency: int)

  datatype Step =
    | Tick(dt: nat)
    | Bump
    | Deliver
    | Hit
    | StartLoad
    | FinishLoad

  predicate IsFresh(c: Config, s: Sys) {
    s.local.Some? && s.now < s.local.value.storedAt + c.ttl
  }

  /** Steps that are not enabled do nothing. A load in flight never takes longer than `latency`. */
  function Next(c: Config, s: Sys, step: Step): Sys {
    match step
    case Tick(dt) =>
      if s.flight.Some? && s.now + dt > s.flight.value.readAt + c.latency then s else s.(now := s.now + dt)
    case Bump => s.(history := s.history.(bumps := s.history.bumps + [s.now]))
    case Deliver => s.(local := None)
    case Hit =>
      if IsFresh(c, s)
      then s.(answers := s.answers + [Return(s.history.Version(s.local.value.read.n), s.now)]) else s
    case StartLoad =>
      if s.flight.Some? || IsFresh(c, s) then s
      else s.(flight := Some(Read(|s.history.bumps|, s.now)))
    case FinishLoad =>
      if s.flight.None? then s
      else
        var r := s.flight.value;
        s.(local := Some(Stored(r, s.now)), flight := None, stores := s.stores + [r.n],
           answers := s.answers + [Return(s.history.Version(r.n), s.now)])
  }

  function Run(c: Config, s: Sys, steps: seq<Step>): Sys
    decreases |steps|
  {
    if steps == [] then s else Run(c, Next(c, s, steps[0]), steps[1..])
  }

  function Start(now: int, first: Option<int>): Sys {
    Sys(now, History(first, []), None, None, [], [])
  }

  /** The returned version was Redis's own at a moment no earlier than `horizon` before the return. */
  ghost predicate WasCurrent(h: History, ret: Return, horizon: int) {
    exists n, r :: h.During(n, r) && ret.v == h.Version(n) && ret.at - horizon <= r <= ret.at
  }

  ghost predicate ReadOk(s: Sys, r: Read) {
    s.history.During(r.n, r.readAt) && r.readAt <= s.now
  }

  ghost predicate Inv(c: Config, s: Sys) {
    && (forall i :: 0 <= i < |s.history.bumps| ==> s.history.bumps[i] <= s.now)
    && (forall i, j :: 0 <= i <= j < |s.history.bumps| ==> s.history.bumps[i] <= s.history.bumps[j])
    && (s.flight.Some? ==> ReadOk(s, s.flight.value) && s.now <= s.flight.value.readAt + c.latency)
    && (s.local.Some? ==>
          && ReadOk(s, s.local.value.read) && s.local.value.storedAt <= s.now
          && s.local.value.storedAt <= s.local.value.read.readAt + c.latency)
    && (forall i, j :: 0 <= i <= j < |s.stores| ==> s.stores[i] <= s.stores[j])
    && (forall i :: 0 <= i < |s.stores| ==> s.stores[i] <= |s.history.bumps|)
    && (s.flight.Some? ==> forall i :: 0 <= i < |s.stores| ==> s.stores[i] <= s.flight.value.n)
    && (forall i :: 0 <= i < |s.answers| ==>
          WasCurrent(s.history, s.answers[i], c.ttl + c.latency) && s.answers[i].at <= s.now)
  }

  /** The provider's fields and Redis, seen from one version name, are in the state `s`. */
  ghost predicate Matches(c: Config, s: Sys, cache: map<string, Entry>, redis: map<string, int>, name: string) {
    && (name in cache <==> s.local.Some?)
    && (s.local.Some? ==>
          cache[name] == Entry(s.history.Version(s.local.value.read.n), s.local.value.storedAt + c.ttl))
    && (name in redis <==> s.history.first.Some? || s.history.bumps != [])
    && Load(redis, name) == s.history.Version(|s.history.bumps|)
  }

  /** What `VerProvider` does is a step of the system: a lookup hits exactly when `Hit` may, a load reads the
      version that `StartLoad` notes, storing it is `FinishLoad`, and bumps and messages are `Bump` and
      `Deliver`; whatever it does for another name is no step at all. */
  lemma ProviderSteps(c: Config, s: Sys, cache: map<string, Entry>, redis: map<string, int>, name: string, other: string, e: Entry)
    requires Matches(c, s, cache, redis, name) && other != name
    ensures Fresh(cache, name, s.now) ==
            if IsFresh(c, s) then Some(s.history.Version(s.local.value.read.n)) else None
    ensures Next(c, s, StartLoad).flight != s.flight ==>
      Load(redis, name) == s.history.Version(Next(c, s, StartLoad).flight.value.n)
    ensures Matches(c, Next(c, s, StartLoad), cache, redis, name) && Matches(c, Next(c, s, Hit), cache, redis, name)
    ensures s.flight.Some? ==>
      Matches(c, Next(c, s, FinishLoad),
              cache[name := Entry(s.history.Version(s.flight.value.n), s.now + c.ttl)], redis, name)
    ensures Matches(c, Next(c, s, Bump), cache, Bumped(redis, name), name)
    ensures Matches(c, Next(c, s, Deliver), cache - {name}, redis, name)
    ensures Matches(c, s, cache[other := e], Bumped(redis, other), name) && Matches(c, s, cache - {other}, redis, name)
  {
  }

  lemma BumpKeepsPast(h: History, now: int, n: nat, r: int)
    requires h.During(n, r) && r <= now
    ensures h.(bumps := h.bumps + [now]).During(n, r)
  {
  }

  lemma BumpKeepsInv(c: Config, s: Sys)
    requires Inv(c, s)
    ensures Inv(c, Next(c, s, Bump))
  {
    var s' := Next(c, s, Bump);
    forall n, r | s.history.During(n, r) && r <= s.now ensures s'.history.During(n, r) {
      BumpKeepsPast(s.history, s.now, n, r);
    }
    forall i | 0 <= i < |s.answers| ensures WasCurrent(s'.history, s'.answers[i], c.ttl + c.latency) {
      var n, r :| s.history.During(n, r) && s.answers[i].v == s.history.Version(n)
        && s.answers[i].at - (c.ttl + c.latency) <= r <= s.answers[i].at;
      assert s'.history.During(n, r);
    }
  }

  lemma AnswerIsCurrent(h: History, read: Read, at: int, horizon: int)
    requires h.During(read.n, read.readAt) && at - horizon <= read.readAt <= at
    ensures WasCurrent(h, Return(h.Version(read.n), at), horizon)
  {
  }

  lemma LoadKeepsInv(c: Config, s: Sys, step: Step)
    requires c.ttl > 0 && c.latency >= 0 && Inv(c, s)
    requires step.Hit? || step.StartLoad? || step.FinishLoad?
    ensures Inv(c, Next(c, s, step))
  {
    if step.Hit? && IsFresh(c, s) {
      AnswerIsCurrent(s.history, s.local.value.read, s.now, c.ttl + c.latency);
    } else if step.FinishLoad? && s.flight.Some? {
      AnswerIsCurrent(s.history, s.flight.value, s.now, c.ttl + c.latency);
    }
  }

  lemma StepKeepsInv(c: Config, s: Sys, step: Step)
    requires c.ttl > 0 && c.latency >= 0 && Inv(c, s)
    ensures Inv(c, Next(c, s, step))
  {
    match step
    case Tick(_) =>
    case Bump => BumpKeepsInv(c, s);
    case Deliver =>
    case Hit => LoadKeepsInv(c, s, step);
    case StartLoad => LoadKeepsInv(c, s, step);
    case FinishLoad => LoadKeepsInv(c, s, step);
  }

  lemma {:induction false} RunKeepsInv(c: Config, s: Sys, steps: seq<Step>)
    requires c.ttl > 0 && c.latency >= 0 && Inv(c, s)
    ensures Inv(c, Run(c, s, steps))
    decreases |steps|
  {
    if steps != [] {
      StepKeepsInv(c, s, steps[0]);
      RunKeepsInv(c, Next(c, s, steps[0]), steps[1..]);
    }
  }

  /** Bounded staleness: however bumps, loads, hits, invalidations and time interleave, every version
      returned was Redis's at most `ttl` plus one load's latency before. */
  lemma {:induction false} BoundedStaleness(c: Config, now: int, first: Option<int>, steps: seq<Step>)
    requires c.ttl > 0 && c.latency >= 0
    ensures var s := Run(c, Start(now, first), steps);
      forall i :: 0 <= i < |s.answers| ==> WasCurrent(s.history, s.answers[i], c.ttl + c.latency)
  {
    RunKeepsInv(c, Start(now, first), steps);
  }

  /** The versions stored locally, one after another, never decrease. */
  lemma {:induction false} StoredVersionsNeverDecrease(c: Config, now: int, first: Option<int>, steps: seq<Step>)
    requires c.ttl > 0 && c.latency >= 0
    ensures var s := Run(c, Start(now, first), steps);
      forall i, j :: 0 <= i <= j < |s.stores| ==>
        s.history.Version(s.stores[i]) <= s.history.Version(s.stores[j])
  {
    RunKeepsInv(c, Start(now, first), steps);
  }

  // ----- When an invalidation works -----

  /** From the `from`-th answer on, nothing older than `floor` has been returned or can be. */
  ghost predicate NoOlder(s: Sys, floor: int, from: nat) {
    && s.history.Version(|s.history.bumps|) >= floor
    && (s.local.Some? ==> s.history.Version(s.local.value.read.n) >= floor)
    && (s.flight.Some? ==> s.history.Version(s.flight.value.n) >= floor)
    && (forall i :: from <= i < |s.answers| ==> s.answers[i].v >= floor)
  }

  lemma {:induction false} StaysNoOlder(c: Config, s: Sys, steps: seq<Step>, floor: int, from: nat)
    requires NoOlder(s, floor, from)
    ensures NoOlder(Run(c, s, steps), floor, from)
    decreases |steps|
  {
    if steps != [] {
      StepStaysNoOlder(c, s, steps[0], floor, from);
      StaysNoOlder(c, Next(c, s, steps[0]), steps[1..], floor, from);
    }
  }

  lemma StepStaysNoOlder(c: Config, s: Sys, step: Step, floor: int, from: nat)
    requires NoOlder(s, floor, from)
    ensures NoOlder(Next(c, s, step), floor, from)
  {
  }

  /** Whatever happens after an invalidation has arrived, no answer is older than Redis's version at its
      arrival. */
  ghost predicate Works(c: Config, s: Sys) {
    forall steps: seq<Step>, i :: |s.answers| <= i < |Run(c, Next(c, s, Deliver), steps).answers|
      ==> Run(c, Next(c, s, Deliver), steps).answers[i].v >= s.history.Version(|s.history.bumps|)
  }

  /** An invalidation works exactly when no load is in flight that has read an older version. */
  lemma InvalidationWorksIff(c: Config, s: Sys)
    ensures Works(c, s) <==>
      (s.flight.Some? ==> s.history.Version(s.flight.value.n) >= s.history.Version(|s.history.bumps|))
  {
    var s1, floor := Next(c, s, Deliver), s.history.Version(|s.history.bumps|);
    if s.flight.Some? ==> s.history.Version(s.flight.value.n) >= floor {
      forall steps: seq<Step>, i | |s.answers| <= i < |Run(c, s1, steps).answers|
        ensures Run(c, s1, steps).answers[i].v >= floor
      {
        StaysNoOlder(c, s1, steps, floor, |s.answers|);
      }
    } else {
      RunUnfold(c, s1, [FinishLoad]);
      assert Run(c, s1, [FinishLoad]).answers[|s.answers|].v == s.history.Version(s.flight.value.n);
    }
  }

  /** In a run, that is: no bump came after the read of the load in flight, save the unseen first one. */
  lemma OlderIff(h: History, n: nat)
    requires n <= |h.bumps|
    ensures h.Version(n) >= h.Version(|h.bumps|) <==> n == |h.bumps| || (h.first.None? && n == 0 && |h.bumps| == 1)
  {
  }

  /** The bound cannot do without the latency: an invalidation that arrives while a load is in flight
      removes nothing, and the load then stores what it had read before the bump. */
  lemma {:induction false} InvalidationLosesRace(c: Config)
    requires c.ttl > 1 && c.latency >= 1
    ensures var s := Run(c, Start(0, Some(7)), [StartLoad, Bump, Deliver, Tick(1), FinishLoad, Tick(1), Hit]);
      && s.now == 2 && s.history.bumps == [0]
      && s.answers == [Return(7, 1), Return(7, 2)]
  {
    var s1 := Next(c, Start(0, Some(7)), StartLoad);
    assert s1.flight == Some(Read(0, 0));
    var s2 := Next(c, s1, Bump);
    assert s2.history.bumps == [0];
    var s3 := Next(c, s2, Deliver);
    var s4 := Next(c, s3, Tick(1));
    assert s4.now == 1;
    var s5 := Next(c, s4, FinishLoad);
    assert s5.answers == [Return(7, 1)];
    var s6 := Next(c, s5, Tick(1));
    var s7 := Next(c, s6, Hit);
    assert s7.answers == [Return(7, 1), Return(7, 2)];
    var steps := [StartLoad, Bump, Deliver, Tick(1), FinishLoad, Tick(1), Hit];
    RunUnfold(c, Start(0, Some(7)), steps);
    RunUnfold(c, s1, steps[1..]);
    RunUnfold(c, s2, steps[2..]);
    RunUnfold(c, s3, steps[3..]);
    RunUnfold(c, s4, steps[4..]);
    RunUnfold(c, s5, steps[5..]);
    RunUnfold(c, s6, steps[6..]);
  }

  lemma RunUnfold(c: Config, s: Sys, steps: seq<Step>)
    requires steps != []
    ensures Run(c, s, steps) == Run(c, Next(c, s, steps[0]), steps[1..])
  {
  }

  /** What is held locally is what was stored last. */
  lemma {:induction false} LocalIsLastStored(c: Config, s: Sys, steps: seq<Step>)
    requires s.local.Some? ==> s.stores != [] && s.stores[|s.stores| - 1] == s.local.value.read.n
    ensures var s' := Run(c, s, steps);
      s'.local.Some? ==> s'.stores != [] && s'.stores[|s'.stores| - 1] == s'.local.value.read.n
    decreases |steps|
  {
    if steps != [] { LocalIsLastStored(c, Next(c, s, steps[0]), steps[1..]); }
  }

  // ----- How often Redis is read -----

  function Deliveries(steps: seq<Step>): nat
    decreases |steps|
  {
    if steps == [] then 0 else (if steps[0].Deliver? then 1 else 0) + Deliveries(steps[1..])
  }

  /** After `d` messages: each load began a time to live after the one before it was stored, unless a message came
      in between. */
  ghost predicate Spaced(c: Config, s: Sys, start: int, d: nat) {
    && (s.local.Some? ==> s.local.value.storedAt <= s.now)
    && match s.flight
       case Some(r) => (|s.stores| - d) * c.ttl <= r.readAt - start && r.readAt <= s.now
       case None =>
         match s.local
         case Some(l) => (|s.stores| - 1 - d) * c.ttl <= l.storedAt - start
         case None => (|s.stores| - d) * c.ttl <= s.now - start
  }

  lemma StepKeepsSpaced(c: Config, s: Sys, step: Step, start: int, d: nat)
    requires c.ttl > 0 && Spaced(c, s, start, d)
    ensures Spaced(c, Next(c, s, step), start, if step.Deliver? then d + 1 else d)
  {
    var n := |s.stores|;
    assert (n - d) * c.ttl == (n - 1 - d) * c.ttl + c.ttl;
    assert (n - (d + 1)) * c.ttl == (n - 1 - d) * c.ttl;
    assert (n + 1 - 1 - d) * c.ttl == (n - d) * c.ttl;
  }

  lemma {:induction false} RunKeepsSpaced(c: Config, s: Sys, steps: seq<Step>, start: int, d: nat)
    requires c.ttl > 0 && Spaced(c, s, start, d)
    ensures Spaced(c, Run(c, s, steps), start, d + Deliveries(steps))
    decreases |steps|
  {
    if steps != [] {
      StepKeepsSpaced(c, s, steps[0], start, d);
      RunKeepsSpaced(c, Next(c, s, steps[0]), steps[1..], start, if steps[0].Deliver? then d + 1 else d);
    }
  }

  /** Redis is read at most once in each time to live, and once more for each message that comes. */
  lemma LoadsAreRare(c: Config, now: int, first: Option<int>, steps: seq<Step>)
    requires c.ttl > 0
    ensures var s := Run(c, Start(now, first), steps);
      (|s.stores| - 1 - Deliveries(steps)) * c.ttl <= s.now - now
  {
    assert (0 - 0) * c.ttl == 0;
    RunKeepsSpaced(c, Start(now, first), steps, now, 0);
    var s, d := Run(c, Start(now, first), steps), Deliveries(steps);
    assert (|s.stores| - d) * c.ttl == (|s.stores| - 1 - d) * c.ttl + c.ttl;
  }
}
