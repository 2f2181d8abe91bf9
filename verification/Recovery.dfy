/** When the rate limiter can grant again: slots of reservations that expired are the only ones that never come
    back. */
module Recovery {
  import opened RateLimit
  import opened WholeDay

  /** From `s` on, some run reaches a state in which a reservation is granted. */
  ghost predicate CanGrantAgain(p: Policy, s: Sys) {
    exists steps: seq<Step>, token :: Try(p, Run(p, s, steps).db, Run(p, s, steps).now, token).1.Granted?
  }

  lemma {:induction false} LeakedGrows(p: Policy, s: Sys, steps: seq<Step>)
    requires Books(s)
    ensures Books(Run(p, s, steps)) && Leaked(s) <= Leaked(Run(p, s, steps))
    decreases |steps|
  {
    if steps != [] {
      StepKeepsBooks(p, s, steps[0]);
      LeakedGrows(p, Next(p, s, steps[0]), steps[1..]);
    }
  }

  /** All live reservations can be cancelled, and what is then pending has leaked. */
  lemma {:induction false} CancelAll(p: Policy, s: Sys) returns (steps: seq<Step>)
    requires Books(s)
    ensures var s' := Run(p, s, steps);
      && s'.now == s.now && s'.db == Db(s.db.counts, Leaked(s), s.db.last, map[])
    decreases |s.db.live|
  {
    if s.db.live == map[] {
      steps := [];
    } else {
      var token :| token in s.db.live;
      var s1 := Next(p, s, DoCancel(token));
      MapSize(s.db.live, token, 0);
      StepKeepsBooks(p, s, DoCancel(token));
      var rest := CancelAll(p, s1);
      RunFirst(p, s, DoCancel(token), rest);
      steps := [DoCancel(token)] + rest;
    }
  }

  lemma LaterIsAnotherDay(c: Calendar, now: int, later: int)
    requires c.Sane() && later > c.endOfDay(now)
    ensures c.day(later) > c.day(now)
  {
    assert now <= c.endOfDay(now);
    assert c.day(now) <= c.day(later);
    assert c.day(later) == c.day(now) ==> c.endOfDay(later) == c.endOfDay(now);
    assert later <= c.endOfDay(later);
  }

  /** In every reachable state: some run grants again exactly if fewer slots have leaked than a day allows. */
  lemma {:induction false} GrantsAgainIff(p: Policy, now: int, before: seq<Step>)
    requires p.dailyMax > 0 && p.ttl > 0 && p.calendar.Sane()
    ensures CanGrantAgain(p, Run(p, Start(now), before)) <==> Leaked(Run(p, Start(now), before)) < p.dailyMax
  {
    var s := Run(p, Start(now), before);
    RunKeepsBooks(p, Start(now), before);
    RunKeepsBound(p, Start(now), before);
    if Leaked(s) < p.dailyMax {
      var steps := WaitAndGrant(p, s);
      assert Try(p, Run(p, s, steps).db, Run(p, s, steps).now, "").1.Granted?;
    }
    forall steps: seq<Step>, token | Try(p, Run(p, s, steps).db, Run(p, s, steps).now, token).1.Granted?
      ensures Leaked(s) < p.dailyMax
    {
      LeakedGrows(p, s, steps);
      RunKeepsBound(p, s, steps);
    }
  }

  lemma WaitAndGrant(p: Policy, s: Sys) returns (steps: seq<Step>)
    requires p.dailyMax > 0 && p.ttl > 0 && p.calendar.Sane() && Books(s) && Bounded(p, s) && Leaked(s) < p.dailyMax
    ensures Try(p, Run(p, s, steps).db, Run(p, s, steps).now, "").1.Granted?
  {
    var cancels := CancelAll(p, s);
    var end := p.calendar.endOfDay(s.now);
    var cool := if s.db.last.Some? then s.db.last.value.at + p.cooldown else s.now;
    var later := if cool <= end then end + 1 else cool;
    assert s.now <= end;
    LaterIsAnotherDay(p.calendar, s.now, later);
    RunOne(p, s, cancels, Advance(later - s.now));
    steps := cancels + [Advance(later - s.now)];
  }
}
