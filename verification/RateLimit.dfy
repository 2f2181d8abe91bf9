/** The reservation rate limiter: three Lua scripts over the keys of one (namespace, action,
    subject), which share a hash tag. Each script is one atomic step; time passes and keys expire
    between the steps. Redis and its clients read one monotone clock, in seconds. */
module RateLimit {
  import opened Results

  // ----- Days -----

  /** `day` numbers the days of a time zone; `endOfDay` is `EndOfDayUnix`, the day's 23:59:59. */
  datatype Calendar = Calendar(day: int -> int, endOfDay: int -> int)
  {
    ghost predicate Sane() {
      && (forall s, t :: s <= t ==> day(s) <= day(t))
      && (forall t :: t <= endOfDay(t) && day(endOfDay(t)) == day(t))
      && (forall s, t :: day(s) == day(t) ==> endOfDay(s) == endOfDay(t))
    }
  }

  function FixedZone(offset: int): Calendar {
    Calendar(t => (t + offset) / 86400, t => (t + offset) / 86400 * 86400 + 86399 - offset)
  }

  lemma FixedZoneIsSane(offset: int)
    ensures FixedZone(offset).Sane()
  {
    forall t ensures t <= FixedZone(offset).endOfDay(t)
             ensures FixedZone(offset).day(FixedZone(offset).endOfDay(t)) == FixedZone(offset).day(t) {
      var d := (t + offset) / 86400;
      assert (d * 86400 + 86399) / 86400 == d;
    }
  }

  // ----- Redis -----

  datatype Counter = Counter(n: int, expires: int)
  datatype Stamp = Stamp(at: int, expires: int)

  /** `counts` is keyed by the day in the key's name; an absent pending key reads as 0. */
  datatype Db = Db(counts: map<int, Counter>, pending: int, last: Option<Stamp>, live: map<string, int>)
  {
    function CountOn(day: int): int { if day in counts then counts[day].n else 0 }
  }

  datatype Policy = Policy(dailyMax: int, cooldown: int, ttl: int, calendar: Calendar)

  datatype Verdict =
    | Granted | Cooling(wait: int) | Exhausted        // TryReserve
    | Committed | Cancelled | Missing                  // Commit, Cancel
    | ScriptError                                      // SET ... EX with a time that is not positive

  function Try(p: Policy, db: Db, now: int, token: string): (Db, Verdict) {
    if p.dailyMax <= 0 then
      if p.ttl <= 0 then (db, ScriptError)
      else (db.(live := db.live[token := now + p.ttl], pending := db.pending + 1), Granted)
    else if db.last.Some? && now - db.last.value.at < p.cooldown then
      (db, Cooling(p.cooldown - (now - db.last.value.at)))
    else if db.CountOn(p.calendar.day(now)) + db.pending >= p.dailyMax then (db, Exhausted)
    else if p.ttl <= 0 then (db.(pending := db.pending + 1), ScriptError)
    else (db.(pending := db.pending + 1, live := db.live[token := now + p.ttl]), Granted)
  }

  function Decrement(pending: int): int {
    if pending > 0 then pending - 1 else pending
  }

  /** INCR, then EXPIREAT at the end of the day when the counter is new; an EXPIREAT that is not in
      the future deletes the key. */
  function Bump(counts: map<int, Counter>, day: int, now: int, endOfDay: int): map<int, Counter> {
    if day in counts && counts[day].n != 0 then counts[day := counts[day].(n := counts[day].n + 1)]
    else if endOfDay <= now then counts - {day}
    else counts[day := Counter(1, endOfDay)]
  }

  function CommitScript(p: Policy, db: Db, now: int, token: string): (Db, Verdict) {
    if token !in db.live then (db, Missing)
    else
      var db1 := db.(
        live := db.live - {token},
        pending := Decrement(db.pending),
        counts := Bump(db.counts, p.calendar.day(now), now, p.calendar.endOfDay(now)));
      if p.cooldown <= 0 then (db1, ScriptError)
      else (db1.(last := Some(Stamp(now, now + p.cooldown))), Committed)
  }

  function CancelScript(db: Db, token: string): (Db, Verdict) {
    if token !in db.live then (db, Missing)
    else (db.(live := db.live - {token}, pending := Decrement(db.pending)), Cancelled)
  }

  /** The scripts as Redis runs them, command by command. */
  class Redis {
    var counts: map<int, Counter>
    var pending: int
    var last: Option<Stamp>
    var live: map<string, int>

    function Contents(): Db
      reads this
    {
      Db(counts, pending, last, live)
    }

    constructor ()
      ensures Contents() == EMPTY_DB
    {
      counts, pending, last, live := map[], 0, None, map[];
    }

    method LuaTry(p: Policy, now: int, token: string) returns (r: Verdict)
      modifies this
      ensures (Contents(), r) == Try(p, old(Contents()), now, token)
    {
      if p.dailyMax <= 0 {
        if p.ttl <= 0 {
          return ScriptError;
        }
        live := live[token := now + p.ttl];
        pending := pending + 1;
        return Granted;
      }
      if last.Some? {
        var lastSec := last.value.at;
        if now - lastSec < p.cooldown {
          return Cooling(p.cooldown - (now - lastSec));
        }
      }
      var day := p.calendar.day(now);
      var countToday := if day in counts then counts[day].n else 0;
      if countToday + pending >= p.dailyMax {
        return Exhausted;
      }
      pending := pending + 1;
      if p.ttl <= 0 {
        return ScriptError;
      }
      live := live[token := now + p.ttl];
      return Granted;
    }

    method LuaCommit(p: Policy, now: int, token: string) returns (r: Verdict)
      modifies this
      ensures (Contents(), r) == CommitScript(p, old(Contents()), now, token)
    {
      if token !in live {
        return Missing;
      }
      live := live - {token};
      if pending > 0 {
        pending := pending - 1;
      }
      var day := p.calendar.day(now);
      var count := 1 + if day in counts then counts[day].n else 0;
      if count == 1 {
        var endOfDay := p.calendar.endOfDay(now);
        counts := if endOfDay <= now then counts - {day} else counts[day := Counter(1, endOfDay)];
      } else {
        counts := counts[day := Counter(count, counts[day].expires)];
      }
      if p.cooldown <= 0 {
        return ScriptError;
      }
      last := Some(Stamp(now, now + p.cooldown));
      return Committed;
    }

    method LuaCancel(token: string) returns (r: Verdict)
      modifies this
      ensures (Contents(), r) == CancelScript(old(Contents()), token)
    {
      if token in live {
        live := live - {token};
        if pending > 0 {
          pending := pending - 1;
        }
        return Cancelled;
      }
      return Missing;
    }
  }

  // ----- Runs: scripts, time and expiry in any order -----

  const EMPTY_DB := Db(map[], 0, None, map[])

  datatype Event =
    | Grant(token: string)
    | Orphan                              // pending was raised but no reservation was stored
    | Commit(token: string, at: int)
    | Cancel(token: string)
    | Expiry(token: string)

  datatype Sys = Sys(now: int, db: Db, log: seq<Event>)

  datatype Step =
    | Advance(seconds: nat)
    | DoReserve(token: string) | DoCommit(token: string) | DoCancel(token: string)
    | ExpireLive(token: string) | ExpireCount(day: int) | ExpireLast

  function Next(p: Policy, s: Sys, step: Step): Sys {
    match step
    case Advance(seconds) => s.(now := s.now + seconds)
    case DoReserve(token) =>
      var (db, v) := Try(p, s.db, s.now, token);
      s.(db := db, log := if v.Granted? then s.log + [Grant(token)]
                          else if db.pending != s.db.pending then s.log + [Orphan] else s.log)
    case DoCommit(token) =>
      s.(db := CommitScript(p, s.db, s.now, token).0,
         log := if token in s.db.live then s.log + [Commit(token, s.now)] else s.log)
    case DoCancel(token) =>
      s.(db := CancelScript(s.db, token).0,
         log := if token in s.db.live then s.log + [Cancel(token)] else s.log)
    case ExpireLive(token) =>
      if token in s.db.live && s.db.live[token] <= s.now
      then s.(db := s.db.(live := s.db.live - {token}), log := s.log + [Expiry(token)]) else s
    case ExpireCount(day) =>
      if day in s.db.counts && s.db.counts[day].expires <= s.now
      then s.(db := s.db.(counts := s.db.counts - {day})) else s
    case ExpireLast =>
      if s.db.last.Some? && s.db.last.value.expires <= s.now then s.(db := s.db.(last := None)) else s
  }

  function Run(p: Policy, s: Sys, steps: seq<Step>): Sys
    decreases |steps|
  {
    if steps == [] then s else Run(p, Next(p, s, steps[0]), steps[1..])
  }

  function Count(log: seq<Event>, what: Event -> bool): nat {
    if log == [] then 0
    else Count(log[..|log| - 1], what) + if what(log[|log| - 1]) then 1 else 0
  }

  lemma CountAppend(log: seq<Event>, e: Event, what: Event -> bool)
    ensures Count(log + [e], what) == Count(log, what) + if what(e) then 1 else 0
  {
    assert (log + [e])[..|log|] == log;
  }

  function GrantsOf(token: string): Event -> bool { (e: Event) => e.Grant? && e.token == token }
  function UsesOf(token: string): Event -> bool { (e: Event) => (e.Commit? || e.Cancel?) && e.token == token }
  function CommitsOn(c: Calendar, day: int): Event -> bool { (e: Event) => e.Commit? && c.day(e.at) == day }

  /** Commits on `day` before its 23:59:59. */
  function EarlyCommits(c: Calendar, day: int): Event -> bool {
    (e: Event) => e.Commit? && c.day(e.at) == day && e.at < c.endOfDay(e.at)
  }

  // ----- Accounting -----

  datatype Tally = Tally(grants: nat, orphans: nat, commits: nat, cancels: nat, expiries: nat)

  function Tallied(t: Tally, e: Event): Tally {
    match e
    case Grant(_) => t.(grants := t.grants + 1)
    case Orphan => t.(orphans := t.orphans + 1)
    case Commit(_, _) => t.(commits := t.commits + 1)
    case Cancel(_) => t.(cancels := t.cancels + 1)
    case Expiry(_) => t.(expiries := t.expiries + 1)
  }

  function TallyOf(log: seq<Event>): Tally {
    if log == [] then Tally(0, 0, 0, 0, 0) else Tallied(TallyOf(log[..|log| - 1]), log[|log| - 1])
  }

  lemma TallyAppend(log: seq<Event>, e: Event)
    ensures TallyOf(log + [e]) == Tallied(TallyOf(log), e)
  {
    assert (log + [e])[..|log|] == log;
  }

  /** The books of pending reservations. */
  ghost predicate Books(s: Sys) {
    var t := TallyOf(s.log);
    && s.db.pending == t.grants + t.orphans - t.commits - t.cancels
    && |s.db.live| + t.expiries <= s.db.pending
  }

  lemma MapSize(m: map<string, int>, token: string, at: int)
    ensures token in m ==> |m| >= 1 && |m - {token}| == |m| - 1
    ensures |m[token := at]| <= |m| + 1
  {
    if token in m {
      assert m == (m - {token})[token := m[token]];
      assert m[token := at].Keys == m.Keys;
      assert |m[token := at].Keys| == |m.Keys|;
    } else {
      assert (m[token := at]).Keys == m.Keys + {token};
    }
  }

  lemma ReserveKeepsBooks(p: Policy, s: Sys, token: string)
    requires Books(s)
    ensures Books(Next(p, s, DoReserve(token)))
    ensures Leaked(s) <= Leaked(Next(p, s, DoReserve(token)))
  {
    var v := Try(p, s.db, s.now, token).1;
    if v.Granted? {
      MapSize(s.db.live, token, s.now + p.ttl);
      TallyAppend(s.log, Grant(token));
    } else if v.ScriptError? {
      TallyAppend(s.log, Orphan);
    }
  }

  lemma {:induction false} ReleaseKeepsBooks(p: Policy, s: Sys, step: Step)
    requires Books(s) && (step.DoCommit? || step.DoCancel? || step.ExpireLive?)
    ensures Books(Next(p, s, step)) && Leaked(s) <= Leaked(Next(p, s, step))
    ensures !step.ExpireLive? && step.token in s.db.live ==> Next(p, s, step).db.pending == s.db.pending - 1
  {
    if step.token in s.db.live {
      MapSize(s.db.live, step.token, 0);
      match step
      case DoCommit(token) =>
        Released(s, token, CommitScript(p, s.db, s.now, token).0, Commit(token, s.now));
      case DoCancel(token) =>
        Released(s, token, CancelScript(s.db, token).0, Cancel(token));
      case ExpireLive(token) =>
        Released(s, token, s.db.(live := s.db.live - {token}), Expiry(token));
    }
  }

  /** A reservation ends: it is no longer live and, unless it expired, no longer pending. */
  lemma Released(s: Sys, token: string, db: Db, e: Event)
    requires Books(s) && token in s.db.live && (e.Commit? || e.Cancel? || e.Expiry?)
    requires db.live == s.db.live - {token} && db.pending == s.db.pending - if e.Expiry? then 0 else 1
    ensures Books(s.(db := db, log := s.log + [e])) && Leaked(s) <= Leaked(s.(db := db, log := s.log + [e]))
  {
    MapSize(s.db.live, token, 0);
    TallyAppend(s.log, e);
  }

  /** Pending slots that no live reservation stands behind. */
  function Leaked(s: Sys): int {
    s.db.pending - |s.db.live|
  }

  /** Every step keeps the books: pending is what was granted and not yet committed or cancelled, and
      covers the live and the expired reservations, so the scripts' `pend > 0` tests never fail.
      A leaked slot is never given back. */
  lemma {:induction false} StepKeepsBooks(p: Policy, s: Sys, step: Step)
    requires Books(s)
    ensures Books(Next(p, s, step)) && Leaked(s) <= Leaked(Next(p, s, step))
    ensures (step.DoCommit? || step.DoCancel?) && step.token in s.db.live
      ==> Next(p, s, step).db.pending == s.db.pending - 1
  {
    match step
    case DoReserve(token) => ReserveKeepsBooks(p, s, token);
    case DoCommit(_) => ReleaseKeepsBooks(p, s, step);
    case DoCancel(_) => ReleaseKeepsBooks(p, s, step);
    case ExpireLive(_) => ReleaseKeepsBooks(p, s, step);
    case Advance(_) =>
    case ExpireCount(_) =>
    case ExpireLast =>
  }

  ghost predicate TokenBooks(s: Sys, token: string) {
    Count(s.log, UsesOf(token)) + (if token in s.db.live then 1 else 0) <= Count(s.log, GrantsOf(token))
  }

  lemma {:induction false} StepKeepsTokenBooks(p: Policy, s: Sys, step: Step, token: string)
    requires TokenBooks(s, token)
    ensures TokenBooks(Next(p, s, step), token)
  {
    var s' := Next(p, s, step);
    LogGrows(p, s, step);
    if |s'.log| > |s.log| {
      var e := s'.log[|s.log|];
      CountAppend(s.log, e, UsesOf(token));
      CountAppend(s.log, e, GrantsOf(token));
      LiveFollowsLog(p, s, step, token);
    }
  }

  /** A token becomes live only with its grant, and what uses it up ends it. */
  lemma LiveFollowsLog(p: Policy, s: Sys, step: Step, token: string)
    ensures var s' := Next(p, s, step);
      |s'.log| > |s.log| ==>
        && (token in s'.db.live ==> token in s.db.live || GrantsOf(token)(s'.log[|s.log|]))
        && (UsesOf(token)(s'.log[|s.log|]) ==> token in s.db.live && token !in s'.db.live)
        && !(UsesOf(token)(s'.log[|s.log|]) && GrantsOf(token)(s'.log[|s.log|]))
  {
  }

  const BOOT := Sys(0, EMPTY_DB, [])

  function Start(now: int): Sys {
    BOOT.(now := now)
  }

  lemma {:induction false} RunKeepsBooks(p: Policy, s: Sys, steps: seq<Step>)
    requires Books(s)
    ensures Books(Run(p, s, steps))
    decreases |steps|
  {
    if steps != [] {
      StepKeepsBooks(p, s, steps[0]);
      RunKeepsBooks(p, Next(p, s, steps[0]), steps[1..]);
    }
  }

  lemma {:induction false} NoOrphans(p: Policy, s: Sys, steps: seq<Step>)
    requires p.ttl > 0 && TallyOf(s.log).orphans == 0
    ensures TallyOf(Run(p, s, steps).log).orphans == 0
    decreases |steps|
  {
    if steps != [] {
      var s' := Next(p, s, steps[0]);
      if |s'.log| > |s.log| {
        assert s'.log == s.log + [s'.log[|s.log|]];
        TallyAppend(s.log, s'.log[|s.log|]);
      }
      NoOrphans(p, s', steps[1..]);
    }
  }

  /** In every reachable state pending is granted less committed less cancelled, and no less than the
      live and the expired reservations together. */
  lemma {:induction false} ReservationAccounting(p: Policy, now: int, steps: seq<Step>)
    requires p.ttl > 0
    ensures
      var s := Run(p, Start(now), steps);
      var t := TallyOf(s.log);
      s.db.pending == t.grants - t.commits - t.cancels && |s.db.live| + t.expiries <= s.db.pending
  {
    RunKeepsBooks(p, Start(now), steps);
    NoOrphans(p, Start(now), steps);
  }

  /** A token is committed or cancelled at most as often as it was granted: once, as tokens are fresh. */
  lemma {:induction false} TokensTakeEffectOnce(p: Policy, s: Sys, steps: seq<Step>, token: string)
    requires TokenBooks(s, token)
    ensures Count(Run(p, s, steps).log, UsesOf(token)) <= Count(Run(p, s, steps).log, GrantsOf(token))
    decreases |steps|
  {
    if steps != [] {
      StepKeepsTokenBooks(p, s, steps[0], token);
      TokensTakeEffectOnce(p, Next(p, s, steps[0]), steps[1..], token);
    }
  }

  /** Expiry never gives a slot back: after `dailyMax` expired reservations, no run ever grants another. */
  lemma {:induction false} ExpiredSlotsAreLost(p: Policy, now: int, steps: seq<Step>, more: seq<Step>, token: string)
    requires p.dailyMax > 0
    requires TallyOf(Run(p, Start(now), steps).log).expiries >= p.dailyMax
    ensures var s := Run(p, Run(p, Start(now), steps), more);
            !Try(p, s.db, s.now, token).1.Granted?
  {
    var mid := Run(p, Start(now), steps);
    RunKeepsBooks(p, Start(now), steps);
    CountsArePositive(p, Start(now), steps);
    ExpiriesGrow(p, mid, more);
    RunKeepsBooks(p, mid, more);
    CountsArePositive(p, mid, more);
  }

  ghost predicate PositiveCounts(db: Db) {
    forall d :: d in db.counts ==> db.counts[d].n > 0
  }

  lemma {:induction false} CountsArePositive(p: Policy, s: Sys, steps: seq<Step>)
    requires PositiveCounts(s.db)
    ensures PositiveCounts(Run(p, s, steps).db)
    decreases |steps|
  {
    if steps != [] {
      CountsArePositive(p, Next(p, s, steps[0]), steps[1..]);
    }
  }

  lemma StepGrowsExpiries(p: Policy, s: Sys, step: Step)
    ensures TallyOf(s.log).expiries <= TallyOf(Next(p, s, step).log).expiries
  {
    var s' := Next(p, s, step);
    LogGrows(p, s, step);
    if |s'.log| > |s.log| {
      TallyAppend(s.log, s'.log[|s.log|]);
    }
  }

  /** A step adds at most one event. */
  lemma LogGrows(p: Policy, s: Sys, step: Step)
    ensures var log := Next(p, s, step).log;
            log == s.log || (|log| > |s.log| && log == s.log + [log[|s.log|]])
  {
  }

  lemma {:induction false} ExpiriesGrow(p: Policy, s: Sys, steps: seq<Step>)
    ensures TallyOf(s.log).expiries <= TallyOf(Run(p, s, steps).log).expiries
    decreases |steps|
  {
    if steps != [] {
      StepGrowsExpiries(p, s, steps[0]);
      ExpiriesGrow(p, Next(p, s, steps[0]), steps[1..]);
    }
  }

  // ----- The daily bound -----

  /** Holds in every reachable state. The count of a day is exact until its 23:59:59, when its key
      expires; what is pending is always covered by the allowance of the current and any later day. */
  ghost predicate Bounded(p: Policy, s: Sys) {
    var c := p.calendar;
    var today := c.day(s.now);
    && PositiveCounts(s.db)
    && (forall d :: d in s.db.counts ==> d <= today)
    && (today in s.db.counts ==> s.db.counts[today].expires == c.endOfDay(s.now))
    && 0 <= s.db.pending && s.db.CountOn(today) + s.db.pending <= p.dailyMax
    && (s.now < c.endOfDay(s.now) ==> s.db.CountOn(today) == Count(s.log, EarlyCommits(c, today)))
    && (forall d :: d > today ==> Count(s.log, EarlyCommits(c, d)) == 0)
    && (forall d :: Count(s.log, EarlyCommits(c, d)) <= p.dailyMax)
  }

  lemma AdvanceKeepsBound(p: Policy, s: Sys, seconds: nat)
    requires p.calendar.Sane() && Bounded(p, s)
    ensures Bounded(p, s.(now := s.now + seconds))
  {
    var c := p.calendar;
    assert c.day(s.now) <= c.day(s.now + seconds);
    assert s.now <= c.endOfDay(s.now);
  }

  lemma EarlyAppend(c: Calendar, log: seq<Event>, e: Event)
    ensures forall d {:trigger EarlyCommits(c, d)} ::
      Count(log + [e], EarlyCommits(c, d)) ==
        Count(log, EarlyCommits(c, d)) + if e.Commit? && c.day(e.at) == d && e.at < c.endOfDay(e.at) then 1 else 0
  {
    forall d { CountAppend(log, e, EarlyCommits(c, d)); }
  }

  lemma CommitKeepsBound(p: Policy, s: Sys, token: string)
    requires p.calendar.Sane() && Bounded(p, s) && Books(s)
    ensures Bounded(p, Next(p, s, DoCommit(token)))
  {
    if token in s.db.live {
      StepKeepsBooks(p, s, DoCommit(token));
      EarlyAppend(p.calendar, s.log, Commit(token, s.now));
    }
  }

  lemma ReserveKeepsBound(p: Policy, s: Sys, token: string)
    requires p.dailyMax > 0 && Bounded(p, s)
    ensures Bounded(p, Next(p, s, DoReserve(token)))
  {
    EarlyAppend(p.calendar, s.log, Grant(token));
    EarlyAppend(p.calendar, s.log, Orphan);
  }

  lemma OtherKeepsBound(p: Policy, s: Sys, step: Step)
    requires p.dailyMax > 0 && p.calendar.Sane() && Bounded(p, s) && Books(s)
    requires step.DoCancel? || step.ExpireLive? || step.ExpireCount? || step.ExpireLast?
    ensures Bounded(p, Next(p, s, step))
  {
    var s' := Next(p, s, step);
    if |s'.log| > |s.log| {
      var e := s'.log[|s.log|];
      assert s'.log == s.log + [e];
      EarlyAppend(p.calendar, s.log, e);
    }
  }

  lemma {:induction false} StepKeepsBound(p: Policy, s: Sys, step: Step)
    requires p.dailyMax > 0 && p.calendar.Sane()
    requires Bounded(p, s) && Books(s)
    ensures Bounded(p, Next(p, s, step))
  {
    if step.Advance? {
      AdvanceKeepsBound(p, s, step.seconds);
    } else if step.DoCommit? {
      CommitKeepsBound(p, s, step.token);
    } else if step.DoReserve? {
      ReserveKeepsBound(p, s, step.token);
    } else {
      OtherKeepsBound(p, s, step);
    }
  }

  lemma {:induction false} RunKeepsBound(p: Policy, s: Sys, steps: seq<Step>)
    requires p.dailyMax > 0 && p.calendar.Sane()
    requires Bounded(p, s) && Books(s)
    ensures Bounded(p, Run(p, s, steps))
    decreases |steps|
  {
    if steps != [] {
      StepKeepsBound(p, s, steps[0]);
      StepKeepsBooks(p, s, steps[0]);
      RunKeepsBound(p, Next(p, s, steps[0]), steps[1..]);
    }
  }

  /** In every interleaving, at most `dailyMax` commits fall on one day before its last second. */
  lemma {:induction false} AtMostDailyMaxCommits(p: Policy, now: int, steps: seq<Step>, day: int)
    requires p.dailyMax > 0 && p.calendar.Sane()
    ensures Count(Run(p, Start(now), steps).log, EarlyCommits(p.calendar, day)) <= p.dailyMax
  {
    RunKeepsBound(p, Start(now), steps);
  }

  // ----- The cooldown -----

  ghost predicate LastIsStamped(p: Policy, s: Sys) {
    s.db.last.Some? ==> s.db.last.value.expires == s.db.last.value.at + p.cooldown && s.db.last.value.at <= s.now
  }

  lemma {:induction false} RunStampsLast(p: Policy, s: Sys, steps: seq<Step>)
    requires LastIsStamped(p, s)
    ensures LastIsStamped(p, Run(p, s, steps))
    decreases |steps|
  {
    if steps != [] { RunStampsLast(p, Next(p, s, steps[0]), steps[1..]); }
  }

  /** A refusal's wait is exact: in every reachable state, without a commit in between, every retry before
      now + wait is refused with what is left of the wait, and no retry from now + wait on is refused for the
      cooldown. */
  lemma {:induction false} WaitIsExact(p: Policy, now: int, before: seq<Step>, steps: seq<Step>, token: string, retry: string)
    requires Try(p, Run(p, Start(now), before).db, Run(p, Start(now), before).now, token).1.Cooling?
    requires forall i :: 0 <= i < |steps| ==> !steps[i].DoCommit?
    ensures
      var s := Run(p, Start(now), before);
      var wait := Try(p, s.db, s.now, token).1.wait;
      var s' := Run(p, s, steps);
      var v := Try(p, s'.db, s'.now, retry).1;
      && wait > 0
      && (v.Cooling? <==> s'.now < s.now + wait)
      && (v.Cooling? ==> v.wait == s.now + wait - s'.now)
  {
    RunStampsLast(p, Start(now), before);
    var s := Run(p, Start(now), before);
    CooldownRuns(p, s, steps, s.db.last.value.at);
  }

  lemma {:induction false} CooldownRuns(p: Policy, s: Sys, steps: seq<Step>, at: int)
    requires LastIsStamped(p, s)
    requires if s.db.last.Some? then s.db.last.value.at == at else at + p.cooldown <= s.now
    requires forall i :: 0 <= i < |steps| ==> !steps[i].DoCommit?
    ensures var s' := Run(p, s, steps);
      && (if s'.db.last.Some? then s'.db.last.value.at == at else at + p.cooldown <= s'.now)
      && s.now <= s'.now
    decreases |steps|
  {
    if steps != [] {
      var s1 := Next(p, s, steps[0]);
      assert !steps[0].DoCommit?;
      CooldownRuns(p, s1, steps[1..], at);
    }
  }
}
