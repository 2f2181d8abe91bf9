/** How many commits the rate limiter lets through on a whole day, its last second included: at that second the
    day's count has expired. */
module WholeDay {
  import opened Results
  import opened RateLimit

  // ----- At most twice the maximum -----

  /** Commits in the last second of `day`. */
  function LateCommits(c: Calendar, day: int): Event -> bool {
    (e: Event) => e.Commit? && c.day(e.at) == day && e.at == c.endOfDay(e.at)
  }

  lemma {:induction false} EarlyOrLate(c: Calendar, log: seq<Event>, day: int)
    requires c.Sane()
    ensures Count(log, CommitsOn(c, day)) == Count(log, EarlyCommits(c, day)) + Count(log, LateCommits(c, day))
  {
    if log != [] { EarlyOrLate(c, log[..|log| - 1], day); }
  }

  lemma LateAppend(c: Calendar, log: seq<Event>, e: Event)
    ensures forall d {:trigger LateCommits(c, d)} ::
      Count(log + [e], LateCommits(c, d)) ==
        Count(log, LateCommits(c, d)) + if e.Commit? && c.day(e.at) == d && e.at == c.endOfDay(e.at) then 1 else 0
  {
    forall d { CountAppend(log, e, LateCommits(c, d)); }
  }

  /** Holds in every reachable state, beside `Bounded`: in the last second of a day, what has been committed and
      what is still pending were reserved together, as the first commit starts the cooldown. */
  ghost predicate LateBounded(p: Policy, s: Sys) {
    var c := p.calendar;
    var today := c.day(s.now);
    && LastIsStamped(p, s)
    && (forall d :: Count(s.log, LateCommits(c, d)) <= p.dailyMax)
    && (forall d :: d > today ==> Count(s.log, LateCommits(c, d)) == 0)
    && (s.now < c.endOfDay(s.now) ==> Count(s.log, LateCommits(c, today)) == 0)
    && (Count(s.log, LateCommits(c, today)) > 0 ==> s.db.last.Some? && s.db.last.value.at == s.now)
    && Count(s.log, LateCommits(c, today)) + s.db.pending <= p.dailyMax
  }

  lemma AdvanceKeepsLate(p: Policy, s: Sys, seconds: nat)
    requires p.calendar.Sane() && Bounded(p, s) && LateBounded(p, s)
    ensures LateBounded(p, Next(p, s, Advance(seconds)))
  {
    var c := p.calendar;
    var later := s.now + seconds;
    assert c.day(s.now) <= c.day(later);
    assert s.now <= c.endOfDay(s.now);
    assert later <= c.endOfDay(later);
  }

  lemma ReserveKeepsLate(p: Policy, s: Sys, token: string)
    requires p.dailyMax > 0 && p.cooldown > 0 && Bounded(p, s) && LateBounded(p, s)
    ensures LateBounded(p, Next(p, s, DoReserve(token)))
  {
    ReserveKeepsBound(p, s, token);
    LateAppend(p.calendar, s.log, Grant(token));
    LateAppend(p.calendar, s.log, Orphan);
  }

  lemma CommitKeepsLate(p: Policy, s: Sys, token: string)
    requires p.cooldown > 0 && p.calendar.Sane() && Books(s) && LateBounded(p, s)
    ensures LateBounded(p, Next(p, s, DoCommit(token)))
  {
    if token in s.db.live {
      StepKeepsBooks(p, s, DoCommit(token));
      LateAppend(p.calendar, s.log, Commit(token, s.now));
    }
  }

  lemma OtherKeepsLate(p: Policy, s: Sys, step: Step)
    requires p.cooldown > 0 && Books(s) && LateBounded(p, s)
    requires step.DoCancel? || step.ExpireLive? || step.ExpireCount? || step.ExpireLast?
    ensures LateBounded(p, Next(p, s, step))
  {
    var s' := Next(p, s, step);
    LogGrows(p, s, step);
    if |s'.log| > |s.log| {
      LateAppend(p.calendar, s.log, s'.log[|s.log|]);
    }
  }

  lemma {:induction false} RunKeepsLate(p: Policy, s: Sys, steps: seq<Step>)
    requires p.dailyMax > 0 && p.cooldown > 0 && p.calendar.Sane()
    requires Bounded(p, s) && Books(s) && LateBounded(p, s)
    ensures LateBounded(p, Run(p, s, steps))
    decreases |steps|
  {
    if steps != [] {
      StepKeepsBound(p, s, steps[0]);
      StepKeepsBooks(p, s, steps[0]);
      match steps[0] {
        case Advance(seconds) => AdvanceKeepsLate(p, s, seconds);
        case DoReserve(token) => ReserveKeepsLate(p, s, token);
        case DoCommit(token) => CommitKeepsLate(p, s, token);
        case _ => OtherKeepsLate(p, s, steps[0]);
      }
      RunKeepsLate(p, Next(p, s, steps[0]), steps[1..]);
    }
  }

  /** In every interleaving, at most twice the maximum is committed on one day, and at most the maximum if
      nothing is committed in its last second. */
  lemma AtMostTwice(p: Policy, now: int, steps: seq<Step>, day: int)
    requires p.dailyMax > 0 && p.cooldown > 0 && p.calendar.Sane()
    ensures var log := Run(p, Start(now), steps).log;
      && Count(log, CommitsOn(p.calendar, day)) <= 2 * p.dailyMax
      && (Count(log, LateCommits(p.calendar, day)) == 0 ==> Count(log, CommitsOn(p.calendar, day)) <= p.dailyMax)
  {
    RunKeepsLate(p, Start(now), steps);
    AtMostDailyMaxCommits(p, now, steps, day);
    EarlyOrLate(p.calendar, Run(p, Start(now), steps).log, day);
  }

  // ----- Twice the maximum is reached -----

  function Token(i: nat): string {
    seq(i, _ => 'a')
  }

  function Reserves(n: nat): seq<Step> {
    if n == 0 then [] else Reserves(n - 1) + [DoReserve(Token(n))]
  }

  function Commits(n: nat): seq<Step> {
    if n == 0 then [] else Commits(n - 1) + [DoCommit(Token(n))]
  }

  lemma {:induction false} RunAppend(p: Policy, s: Sys, a: seq<Step>, b: seq<Step>)
    ensures Run(p, s, a + b) == Run(p, Run(p, s, a), b)
    decreases |a|
  {
    if a == [] {
      assert a + b == b;
    } else {
      assert (a + b)[1..] == a[1..] + b;
      RunAppend(p, Next(p, s, a[0]), a[1..], b);
    }
  }

  lemma RunOne(p: Policy, s: Sys, a: seq<Step>, b: Step)
    ensures Run(p, s, a + [b]) == Next(p, Run(p, s, a), b)
  {
    RunAppend(p, s, a, [b]);
    assert [b][1..] == [];
  }

  /** Nothing stands in the way of reserving. */
  ghost predicate Idle(p: Policy, s: Sys) {
    && s.db.pending == 0 && s.db.CountOn(p.calendar.day(s.now)) == 0
    && (s.db.last.Some? ==> s.now - s.db.last.value.at >= p.cooldown)
  }

  /** All reservations that a day allows can be held at once. */
  lemma {:induction false} ReserveAll(p: Policy, s: Sys, n: nat, day: int)
    requires p.ttl > 0 && n <= p.dailyMax && Idle(p, s)
    ensures var s' := Run(p, s, Reserves(n));
      && s'.now == s.now && s'.db == s.db.(pending := n, live := s'.db.live)
      && (forall i :: 1 <= i <= n ==> Token(i) in s'.db.live)
      && Count(s'.log, CommitsOn(p.calendar, day)) == Count(s.log, CommitsOn(p.calendar, day))
    decreases n
  {
    if n > 0 {
      ReserveAll(p, s, n - 1, day);
      RunOne(p, s, Reserves(n - 1), DoReserve(Token(n)));
      CountAppend(Run(p, s, Reserves(n - 1)).log, Grant(Token(n)), CommitsOn(p.calendar, day));
    }
  }

  /** And all of them can be committed within one second. */
  lemma {:induction false} CommitAll(p: Policy, s: Sys, n: nat, max: nat)
    requires p.cooldown > 0 && n <= max == s.db.pending
    requires forall i :: 1 <= i <= max ==> Token(i) in s.db.live
    ensures var s' := Run(p, s, Commits(n));
      && s'.now == s.now && s'.db.pending == max - n
      && (forall i :: n < i <= max ==> Token(i) in s'.db.live)
      && (n > 0 ==> s'.db.last == Some(Stamp(s.now, s.now + p.cooldown)))
      && Count(s'.log, CommitsOn(p.calendar, p.calendar.day(s.now)))
         == Count(s.log, CommitsOn(p.calendar, p.calendar.day(s.now))) + n
    decreases n
  {
    if n > 0 {
      CommitAll(p, s, n - 1, max);
      var s' := Run(p, s, Commits(n - 1));
      RunOne(p, s, Commits(n - 1), DoCommit(Token(n)));
      CountAppend(s'.log, Commit(Token(n), s.now), CommitsOn(p.calendar, p.calendar.day(s.now)));
      forall i | n < i <= max ensures Token(i) != Token(n) { assert |Token(i)| == i; }
    }
  }

  /** A day's worth of commits in one second. */
  lemma Burst(p: Policy, s: Sys)
    requires p.dailyMax > 0 && p.cooldown > 0 && p.ttl > 0 && Idle(p, s)
    ensures var s' := Run(p, s, Reserves(p.dailyMax) + Commits(p.dailyMax));
      var on := CommitsOn(p.calendar, p.calendar.day(s.now));
      && s'.now == s.now && s'.db.pending == 0 && s'.db.last == Some(Stamp(s.now, s.now + p.cooldown))
      && Count(s'.log, on) == Count(s.log, on) + p.dailyMax
  {
    RunAppend(p, s, Reserves(p.dailyMax), Commits(p.dailyMax));
    ReserveAll(p, s, p.dailyMax, p.calendar.day(s.now));
    CommitAll(p, Run(p, s, Reserves(p.dailyMax)), p.dailyMax, p.dailyMax);
  }

  /** The bound is reached for every maximum, on every day that leaves room for one cooldown: a burst, the
      cooldown, and a second burst in the last second. */
  lemma TwiceIsReached(p: Policy, now: int) returns (steps: seq<Step>)
    requires p.dailyMax > 0 && p.cooldown > 0 && p.ttl > 0 && p.calendar.Sane()
    requires now + p.cooldown <= p.calendar.endOfDay(now)
    ensures Count(Run(p, Start(now), steps).log, CommitsOn(p.calendar, p.calendar.day(now))) == 2 * p.dailyMax
  {
    var day, end := p.calendar.day(now), p.calendar.endOfDay(now);
    var burst := Reserves(p.dailyMax) + Commits(p.dailyMax);
    var wait := [Advance(end - now)] + [ExpireCount(day)];
    Burst(p, Start(now));
    RunKeepsBound(p, Start(now), burst);
    var s1 := Run(p, Start(now), burst);
    RunOne(p, s1, [Advance(end - now)], ExpireCount(day));
    RunOne(p, s1, [], Advance(end - now));
    assert [] + [Advance(end - now)] == [Advance(end - now)];
    var s2 := Run(p, s1, wait);
    Burst(p, s2);
    RunAppend(p, s1, wait, burst);
    RunAppend(p, Start(now), burst, wait + burst);
    steps := burst + (wait + burst);
  }

  // ----- When the maximum is exceeded at all -----

  /** Some second of `day` from `start` on leaves room for a cooldown before the day ends. */
  ghost predicate Room(p: Policy, start: int, day: int) {
    exists t :: start <= t && p.calendar.day(t) == day && t + p.cooldown <= p.calendar.endOfDay(t)
  }

  /** Without room, the first commit of the day closes it to new reservations. */
  ghost predicate Tight(p: Policy, s: Sys, start: int, day: int) {
    var c := p.calendar;
    var commits := Count(s.log, CommitsOn(c, day));
    && start <= s.now && LastIsStamped(p, s) && commits <= p.dailyMax
    && (c.day(s.now) < day ==> commits == 0)
    && (c.day(s.now) == day ==>
          && commits + s.db.pending <= p.dailyMax
          && (commits > 0 ==> s.db.last.Some? && c.day(s.db.last.value.at) == day && start <= s.db.last.value.at))
  }

  lemma ReserveKeepsTight(p: Policy, s: Sys, token: string, start: int, day: int)
    requires p.dailyMax > 0 && p.calendar.Sane() && !Room(p, start, day)
    requires Bounded(p, s) && Tight(p, s, start, day)
    ensures Tight(p, Next(p, s, DoReserve(token)), start, day)
  {
    var c := p.calendar;
    ReserveKeepsBound(p, s, token);
    CountAppend(s.log, Grant(token), CommitsOn(c, day));
    CountAppend(s.log, Orphan, CommitsOn(c, day));
    assert s.now <= c.endOfDay(s.now);
    if c.day(s.now) == day && Count(s.log, CommitsOn(c, day)) > 0 {
      assert s.db.last.value.at + p.cooldown > c.endOfDay(s.db.last.value.at);
    }
  }

  lemma CommitKeepsTight(p: Policy, s: Sys, token: string, start: int, day: int)
    requires p.cooldown > 0 && Books(s) && Tight(p, s, start, day)
    ensures Tight(p, Next(p, s, DoCommit(token)), start, day)
  {
    if token in s.db.live {
      StepKeepsBooks(p, s, DoCommit(token));
      CountAppend(s.log, Commit(token, s.now), CommitsOn(p.calendar, day));
    }
  }

  lemma OtherKeepsTight(p: Policy, s: Sys, step: Step, start: int, day: int)
    requires p.dailyMax > 0 && p.cooldown > 0 && p.calendar.Sane() && !Room(p, start, day)
    requires !step.DoReserve? && !step.DoCommit?
    requires Bounded(p, s) && Books(s) && Tight(p, s, start, day)
    ensures Tight(p, Next(p, s, step), start, day)
  {
    var c, s' := p.calendar, Next(p, s, step);
    LogGrows(p, s, step);
    if |s'.log| > |s.log| {
      CountAppend(s.log, s'.log[|s.log|], CommitsOn(c, day));
    }
    assert c.day(s.now) <= c.day(s'.now) && s.now <= c.endOfDay(s.now);
    if c.day(s.now) == day && Count(s.log, CommitsOn(c, day)) > 0 {
      assert s.db.last.value.at + p.cooldown > c.endOfDay(s.db.last.value.at);
    }
  }

  lemma {:induction false} RunKeepsTight(p: Policy, s: Sys, steps: seq<Step>, start: int, day: int)
    requires p.dailyMax > 0 && p.cooldown > 0 && p.calendar.Sane() && !Room(p, start, day)
    requires Bounded(p, s) && Books(s) && Tight(p, s, start, day)
    ensures Tight(p, Run(p, s, steps), start, day)
    decreases |steps|
  {
    if steps != [] {
      StepKeepsBound(p, s, steps[0]);
      StepKeepsBooks(p, s, steps[0]);
      match steps[0] {
        case DoReserve(token) => ReserveKeepsTight(p, s, token, start, day);
        case DoCommit(token) => CommitKeepsTight(p, s, token, start, day);
        case _ => OtherKeepsTight(p, s, steps[0], start, day);
      }
      RunKeepsTight(p, Next(p, s, steps[0]), steps[1..], start, day);
    }
  }

  /** More than the maximum can be committed on a day exactly when the day leaves room for a cooldown. */
  lemma {:induction false} ExceededIff(p: Policy, start: int, day: int)
    requires p.dailyMax > 0 && p.cooldown > 0 && p.ttl > 0 && p.calendar.Sane()
    ensures (exists steps :: Count(Run(p, Start(start), steps).log, CommitsOn(p.calendar, day)) > p.dailyMax)
            <==> Room(p, start, day)
  {
    if Room(p, start, day) {
      var steps := RoomIsUsed(p, start, day);
      assert Count(Run(p, Start(start), steps).log, CommitsOn(p.calendar, day)) > p.dailyMax;
    } else {
      forall steps ensures Count(Run(p, Start(start), steps).log, CommitsOn(p.calendar, day)) <= p.dailyMax {
        NoRoomKeepsMax(p, start, day, steps);
      }
    }
  }

  lemma RoomIsUsed(p: Policy, start: int, day: int) returns (steps: seq<Step>)
    requires p.dailyMax > 0 && p.cooldown > 0 && p.ttl > 0 && p.calendar.Sane() && Room(p, start, day)
    ensures Count(Run(p, Start(start), steps).log, CommitsOn(p.calendar, day)) == 2 * p.dailyMax
  {
    var t :| start <= t && p.calendar.day(t) == day && t + p.cooldown <= p.calendar.endOfDay(t);
    var later := TwiceIsReached(p, t);
    RunFirst(p, Start(start), Advance(t - start), later);
    steps := [Advance(t - start)] + later;
  }

  lemma NoRoomKeepsMax(p: Policy, start: int, day: int, steps: seq<Step>)
    requires p.dailyMax > 0 && p.cooldown > 0 && p.calendar.Sane() && !Room(p, start, day)
    ensures Count(Run(p, Start(start), steps).log, CommitsOn(p.calendar, day)) <= p.dailyMax
  {
    RunKeepsTight(p, Start(start), steps, start, day);
  }

  lemma RunFirst(p: Policy, s: Sys, a: Step, rest: seq<Step>)
    ensures Run(p, s, [a] + rest) == Run(p, Next(p, s, a), rest)
  {
    assert ([a] + rest)[1..] == rest;
  }
}
