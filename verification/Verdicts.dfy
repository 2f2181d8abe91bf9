/** What the rate limiter's three scripts answer, told from what happened before: the answers are right in every
    reachable state. */
module Verdicts {
  import opened Results
  import opened RateLimit

  /** The last thing that happened to the token is its grant. */
  function Standing(log: seq<Event>, token: string): bool {
    if log == [] then false
    else
      match log[|log| - 1]
      case Grant(t) => t == token || Standing(log[..|log| - 1], token)
      case Commit(t, _) => t != token && Standing(log[..|log| - 1], token)
      case Cancel(t) => t != token && Standing(log[..|log| - 1], token)
      case Expiry(t) => t != token && Standing(log[..|log| - 1], token)
      case Orphan => Standing(log[..|log| - 1], token)
  }

  /** The moment of the last commit. */
  function LastCommit(log: seq<Event>): Option<int> {
    if log == [] then None
    else if log[|log| - 1].Commit? then Some(log[|log| - 1].at)
    else LastCommit(log[..|log| - 1])
  }

  /** Holds in every reachable state: Redis knows which tokens stand, and the last commit for as long as it counts. */
  ghost predicate Remembered(p: Policy, s: Sys) {
    && (forall token :: token in s.db.live <==> Standing(s.log, token))
    && (s.db.last.Some? ==>
          && p.cooldown > 0 && LastCommit(s.log) == Some(s.db.last.value.at)
          && s.db.last.value.expires == s.db.last.value.at + p.cooldown)
    && (s.db.last.None? && LastCommit(s.log).Some? ==> LastCommit(s.log).value + p.cooldown <= s.now)
  }

  lemma {:induction false} StepRemembers(p: Policy, s: Sys, step: Step)
    requires Remembered(p, s)
    ensures Remembered(p, Next(p, s, step))
  {
    var s' := Next(p, s, step);
    LogGrows(p, s, step);
    if |s'.log| > |s.log| {
      assert s'.log[..|s.log|] == s.log;
      forall token ensures token in s'.db.live <==> Standing(s'.log, token) {
        assert token in s.db.live <==> Standing(s.log, token);
      }
    }
  }

  lemma {:induction false} RunRemembers(p: Policy, s: Sys, steps: seq<Step>)
    requires Remembered(p, s)
    ensures Remembered(p, Run(p, s, steps))
    decreases |steps|
  {
    if steps != [] {
      StepRemembers(p, s, steps[0]);
      RunRemembers(p, Next(p, s, steps[0]), steps[1..]);
    }
  }

  /** `Commit` answers that the reservation is missing exactly if the last thing that happened to the token was not
      its grant, and then it changes nothing. Otherwise it is recorded and, with a cooldown, starts it: that is
      answered with success. Without one the script fails after it has counted the commit. */
  lemma CommitAnswers(p: Policy, now: int, before: seq<Step>, token: string)
    ensures
      var s := Run(p, Start(now), before);
      var (db, v) := CommitScript(p, s.db, s.now, token);
      var s' := Next(p, s, DoCommit(token));
      && (v == Missing <==> !Standing(s.log, token)) && (v == Missing <==> s' == s)
      && (v == Committed <==> Standing(s.log, token) && p.cooldown > 0)
      && (v == Committed <==>
            s'.log == s.log + [Commit(token, s.now)] && s'.db.last == Some(Stamp(s.now, s.now + p.cooldown)))
      && (v == ScriptError <==> Standing(s.log, token) && p.cooldown <= 0)
      && (v == ScriptError ==> s'.log == s.log + [Commit(token, s.now)] && s'.db.last == s.db.last)
      && !Standing(s'.log, token) && (forall t :: t != token ==> (Standing(s'.log, t) <==> Standing(s.log, t)))
  {
    RunRemembers(p, Start(now), before);
    StepRemembers(p, Run(p, Start(now), before), DoCommit(token));
  }

  /** A commit that takes effect raises the count of its day by one, except that the first one in the day's last
      second leaves no count, as its key expires at once; the counts of other days stay. */
  lemma CommitCounts(p: Policy, now: int, before: seq<Step>, token: string)
    ensures
      var s := Run(p, Start(now), before);
      var s' := Next(p, s, DoCommit(token));
      var today := p.calendar.day(s.now);
      && (Standing(s.log, token) ==>
            s'.db.CountOn(today) ==
            if s.db.CountOn(today) > 0 || s.now < p.calendar.endOfDay(s.now) then s.db.CountOn(today) + 1 else 0)
      && (!Standing(s.log, token) ==> s'.db.CountOn(today) == s.db.CountOn(today))
      && (forall d :: d != today ==> s'.db.CountOn(d) == s.db.CountOn(d))
  {
    RunRemembers(p, Start(now), before);
    CountsArePositive(p, Start(now), before);
  }

  /** `Cancel` likewise, and it leaves the day's count and the cooldown alone. */
  lemma CancelAnswers(p: Policy, now: int, before: seq<Step>, token: string)
    ensures
      var s := Run(p, Start(now), before);
      var (db, v) := CancelScript(s.db, token);
      var s' := Next(p, s, DoCancel(token));
      && (v == Missing <==> !Standing(s.log, token)) && (v == Missing <==> s' == s)
      && (v == Cancelled <==> Standing(s.log, token)) && (v == Cancelled <==> s'.log == s.log + [Cancel(token)])
      && s'.db.counts == s.db.counts && s'.db.last == s.db.last
      && !Standing(s'.log, token) && (forall t :: t != token ==> (Standing(s'.log, t) <==> Standing(s.log, t)))
  {
    RunRemembers(p, Start(now), before);
    StepRemembers(p, Run(p, Start(now), before), DoCancel(token));
  }

  /** The books count what is in the log. */
  lemma {:induction false} TallyCounts(log: seq<Event>)
    ensures TallyOf(log) == Tally(Count(log, (e: Event) => e.Grant?), Count(log, (e: Event) => e.Orphan?),
                                  Count(log, (e: Event) => e.Commit?), Count(log, (e: Event) => e.Cancel?),
                                  Count(log, (e: Event) => e.Expiry?))
  {
    if log != [] { TallyCounts(log[..|log| - 1]); }
  }

  /** Slots that are taken and neither committed nor cancelled. */
  function Open(log: seq<Event>): int {
    var t := TallyOf(log);
    t.grants + t.orphans - t.commits - t.cancels
  }

  /** `TryReserve` before the last second of a day: refused for the cooldown exactly if the last commit is less than
      the cooldown ago, with what is left of it as the wait; for the day exactly if its commits and the open slots
      reach the maximum; else granted. A refusal changes nothing, a grant stands until it expires, and without a
      time to live the script fails after it has taken the slot. */
  lemma ReserveAnswers(p: Policy, now: int, before: seq<Step>, token: string)
    requires p.dailyMax > 0 && p.calendar.Sane()
    requires Run(p, Start(now), before).now < p.calendar.endOfDay(Run(p, Start(now), before).now)
    ensures
      var s := Run(p, Start(now), before);
      var v := Try(p, s.db, s.now, token).1;
      var s' := Next(p, s, DoReserve(token));
      var last := LastCommit(s.log);
      var cooling := last.Some? && s.now - last.value < p.cooldown;
      var today := Count(s.log, EarlyCommits(p.calendar, p.calendar.day(s.now)));
      && v == (if cooling then Cooling(last.value + p.cooldown - s.now)
               else if today + Open(s.log) >= p.dailyMax then Exhausted
               else if p.ttl > 0 then Granted else ScriptError)
      && (v == Granted ==> s'.log == s.log + [Grant(token)] && token in s'.db.live && s'.db.live[token] == s.now + p.ttl)
      && (v == ScriptError ==> s'.log == s.log + [Orphan] && s'.db.live == s.db.live)
      && (v != Granted && v != ScriptError ==> s' == s)
  {
    RunRemembers(p, Start(now), before);
    RunKeepsBooks(p, Start(now), before);
    RunKeepsBound(p, Start(now), before);
  }

  /** Without a maximum every reservation is granted, cooldown or not, and nothing happens without a time to live. */
  lemma UnlimitedGrants(p: Policy, now: int, before: seq<Step>, token: string)
    requires p.dailyMax <= 0
    ensures
      var s := Run(p, Start(now), before);
      var s' := Next(p, s, DoReserve(token));
      && Try(p, s.db, s.now, token).1 == (if p.ttl > 0 then Granted else ScriptError)
      && (p.ttl <= 0 ==> s' == s)
      && (p.ttl > 0 ==>
            && s'.log == s.log + [Grant(token)] && Standing(s'.log, token) && s'.db.live[token] == s.now + p.ttl
            && Open(s'.log) == Open(s.log) + 1 && s'.db.pending == Open(s'.log))
  {
    RunKeepsBooks(p, Start(now), before);
    StepKeepsBooks(p, Run(p, Start(now), before), DoReserve(token));
    TallyAppend(Run(p, Start(now), before).log, Grant(token));
  }
}
