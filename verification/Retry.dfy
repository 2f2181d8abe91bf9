/** The retry loop with per-attempt deadlines. Time is in nanoseconds; the clock advances only while `fn`
    runs and while the loop waits, and timers are exact. */
module Retry {
  import opened Results

  const MILLISECOND: int := 1_000_000

  // ----- The deadline of one attempt -----

  /** The parent context: a deadline, if any, and a moment of cancellation, if any. */
  datatype Context = Context(deadline: Option<int>, cancelled: Option<int>)
  {
    predicate DoneBy(t: int) {
      (deadline.Some? && deadline.value <= t) || (cancelled.Some? && cancelled.value <= t)
    }
  }

  /** `PerAttemptCtx`: the deadline of the context that an attempt starting at `now` is given. */
  function AttemptDeadline(ctx: Context, perAttempt: int, now: int): Option<int> {
    match ctx.deadline
    case None => if perAttempt <= 0 then None else Some(now + perAttempt)
    case Some(dl) =>
      var remain := dl - now;
      var p := if perAttempt <= 0 || perAttempt > remain then remain else perAttempt;
      if p <= 0 || p >= remain - MILLISECOND then ctx.deadline else Some(now + p)
  }

  /** The attempt's deadline is never after the parent's, is never missing when either limit is given, and
      exceeds the limit asked for by at most a millisecond. */
  lemma AttemptDeadlineBounds(ctx: Context, perAttempt: int, now: int)
    ensures var d := AttemptDeadline(ctx, perAttempt, now);
      && (d.None? <==> ctx.deadline.None? && perAttempt <= 0)
      && (ctx.deadline.Some? ==> d.value <= ctx.deadline.value)
      && (perAttempt > 0 ==> d.value <= now + perAttempt + MILLISECOND)
      && ((perAttempt > 0 && ctx.deadline.Some? && ctx.deadline.value > now)
          ==> d.value > now && (d.value == ctx.deadline.value || d.value == now + perAttempt))
  {
  }

  /** The attempt is given the limit asked for exactly if that ends more than a millisecond before the parent's
      deadline, and the parent's otherwise. */
  lemma AttemptDeadlineIs(ctx: Context, perAttempt: int, now: int)
    ensures AttemptDeadline(ctx, perAttempt, now) ==
      if perAttempt > 0 && (ctx.deadline.Some? ==> now + perAttempt + MILLISECOND < ctx.deadline.value)
      then Some(now + perAttempt) else ctx.deadline
  {
  }

  // ----- The world around the loop -----

  datatype Outcome = Success(value: int) | Failure(error: int)

  /** What happens at each attempt, counted from 1: how `fn` ends and how long it takes, the backoff drawn
      after it (none to stop), whether `ShouldRetry` agrees, and who wins when the timer and the end of the
      context coincide. */
  datatype World = World(
    fn: nat -> Outcome,
    takes: (nat, int) -> int,
    backoff: nat -> Option<int>,
    shouldRetry: nat -> bool,
    timerWins: nat -> bool)

  datatype Config = Config(maxTries: nat, maxElapsed: int, perAttempt: int)

  /** `fn` stops at the deadline of its context, and backoffs are not negative. */
  ghost predicate Fair(ctx: Context, cfg: Config, w: World) {
    && (forall i: nat, now: int ::
          && w.takes(i, now) >= 0
          && var d := AttemptDeadline(ctx, cfg.perAttempt, now);
             d.Some? ==> now + w.takes(i, now) <= if d.value > now then d.value else now)
    && (forall i: nat :: w.backoff(i).Some? ==> w.backoff(i).value >= 0)
  }

  datatype Ending = Succeeded(value: int) | Failed(error: int) | ContextDone | StillRunning

  /** One round: the call, and either an ending or the moment at which the next attempt starts. */
  datatype Round = Ended(how: Ending, at: int, notified: bool) | Again(at: int)

  function EarliestDone(ctx: Context): Option<int> {
    match (ctx.deadline, ctx.cancelled)
    case (None, c) => c
    case (d, None) => d
    case (Some(d), Some(c)) => Some(if d < c then d else c)
  }

  function RoundOf(ctx: Context, cfg: Config, w: World, start: int, attempt: nat, now: int): Round {
    var t := now + w.takes(attempt, now);
    match w.fn(attempt)
    case Success(v) => Ended(Succeeded(v), t, false)
    case Failure(e) =>
      if cfg.maxTries > 0 && attempt >= cfg.maxTries then Ended(Failed(e), t, false)
      else if ctx.DoneBy(t) then Ended(ContextDone, t, false)
      else
        match w.backoff(attempt)
        case None => Ended(Failed(e), t, false)
        case Some(next) =>
          if !w.shouldRetry(attempt) then Ended(Failed(e), t, false)
          else if cfg.maxElapsed > 0 && t - start + next > cfg.maxElapsed then Ended(Failed(e), t, false)
          else
            match EarliestDone(ctx)
            case Some(done) =>
              if done < t + next || (done == t + next && !w.timerWins(attempt)) then Ended(ContextDone, done, true)
              else Again(t + next)
            case None => Again(t + next)
  }

  /** A round that ends keeps its bounds; a round that goes on starts the next attempt in time. */
  lemma RoundBounds(ctx: Context, cfg: Config, w: World, start: int, attempt: nat, now: int)
    requires Fair(ctx, cfg, w) && start <= now
    requires cfg.maxElapsed > 0 ==> now <= start + cfg.maxElapsed
    requires ctx.deadline.Some? ==> now <= ctx.deadline.value || now == start
    ensures var r := RoundOf(ctx, cfg, w, start, attempt, now);
      && now <= r.at
      && (r.Again? && cfg.maxElapsed > 0 ==> r.at <= start + cfg.maxElapsed)
      && (r.Again? && ctx.deadline.Some? ==> r.at <= ctx.deadline.value)
      && (cfg.maxElapsed > 0 && cfg.perAttempt > 0 ==> r.at <= start + cfg.maxElapsed + cfg.perAttempt + MILLISECOND)
      && (ctx.deadline.Some? ==> r.at <= if start > ctx.deadline.value then start else ctx.deadline.value)
  {
    AttemptDeadlineBounds(ctx, cfg.perAttempt, now);
    var d := AttemptDeadline(ctx, cfg.perAttempt, now);
    assert w.takes(attempt, now) >= 0;
  }

  /** How the loop ended, when, and how often `fn` and `Notify` were called. */
  datatype Report = Report(how: Ending, at: int, calls: nat, notified: nat)

  /** The rounds from `attempt` on. `horizon` is how many attempts are observed: with `maxTries` 0 the loop
      has no bound of its own. */
  function Rounds(ctx: Context, cfg: Config, w: World, start: int, attempt: nat, now: int, horizon: nat): Report
    requires attempt > 0
    decreases horizon + 1 - attempt
  {
    if attempt > horizon then Report(StillRunning, now, attempt - 1, attempt - 1)
    else
      match RoundOf(ctx, cfg, w, start, attempt, now)
      case Ended(how, at, notified) => Report(how, at, attempt, if notified then attempt else attempt - 1)
      case Again(at) => Rounds(ctx, cfg, w, start, attempt + 1, at, horizon)
  }

  ghost predicate InTime(ctx: Context, cfg: Config, start: int, now: int) {
    && start <= now && (cfg.maxElapsed > 0 ==> now <= start + cfg.maxElapsed)
    && (ctx.deadline.Some? ==> now <= ctx.deadline.value || now == start)
  }

  /** Time: with both limits set, the loop ends within them plus a millisecond, and a parent deadline is
      never overrun. */
  lemma {:induction false} EndsInTime(ctx: Context, cfg: Config, w: World, start: int, attempt: nat, now: int, horizon: nat)
    requires attempt > 0 && Fair(ctx, cfg, w) && InTime(ctx, cfg, start, now)
    ensures var r := Rounds(ctx, cfg, w, start, attempt, now, horizon);
      && now <= r.at
      && (cfg.maxElapsed > 0 && cfg.perAttempt > 0 ==> r.at <= start + cfg.maxElapsed + cfg.perAttempt + MILLISECOND)
      && (ctx.deadline.Some? ==> r.at <= if start > ctx.deadline.value then start else ctx.deadline.value)
    decreases horizon + 1 - attempt
  {
    if attempt <= horizon {
      RoundBounds(ctx, cfg, w, start, attempt, now);
      var r := RoundOf(ctx, cfg, w, start, attempt, now);
      if r.Again? { EndsInTime(ctx, cfg, w, start, attempt + 1, r.at, horizon); }
    }
  }

  /** Calls: `fn` is called at most `maxTries` times, fails every time but possibly the last, and the
      caller is notified once between any two calls. */
  lemma {:induction false} CountsCalls(ctx: Context, cfg: Config, w: World, start: int, attempt: nat, now: int, horizon: nat)
    requires attempt > 0 && (cfg.maxTries > 0 ==> attempt <= cfg.maxTries)
    requires forall i :: 1 <= i < attempt ==> w.fn(i).Failure?
    ensures var r := Rounds(ctx, cfg, w, start, attempt, now, horizon);
      && (cfg.maxTries > 0 ==> r.calls <= cfg.maxTries)
      && (r.how.StillRunning? ==> cfg.maxTries > 0 ==> horizon < cfg.maxTries)
      && (forall i :: 1 <= i < r.calls ==> w.fn(i).Failure?)
      && (r.how.Succeeded? ==> r.calls > 0 && w.fn(r.calls) == Success(r.how.value) && r.notified == r.calls - 1)
      && (r.how.Failed? ==> r.calls > 0 && w.fn(r.calls) == Failure(r.how.error) && r.notified == r.calls - 1)
      && (r.how.ContextDone? ==> ctx.DoneBy(r.at) && r.calls > 0 && r.calls - 1 <= r.notified <= r.calls)
    decreases horizon + 1 - attempt
  {
    if attempt <= horizon {
      var r := RoundOf(ctx, cfg, w, start, attempt, now);
      if r.Again? { CountsCalls(ctx, cfg, w, start, attempt + 1, r.at, horizon); }
    }
  }

  /** What `Retry` promises, from its first attempt on. */
  lemma RetryPromise(ctx: Context, cfg: Config, w: World, start: int, horizon: nat)
    requires Fair(ctx, cfg, w)
    ensures var r := Rounds(ctx, cfg, w, start, 1, start, horizon);
      && (cfg.maxTries > 0 ==> r.calls <= cfg.maxTries)
      && (cfg.maxTries > 0 && horizon >= cfg.maxTries ==> !r.how.StillRunning?)
      && (r.how.Succeeded? ==> r.notified == r.calls - 1)
      && (cfg.maxElapsed > 0 && cfg.perAttempt > 0 ==> r.at <= start + cfg.maxElapsed + cfg.perAttempt + MILLISECOND)
      && (ctx.deadline.Some? ==> r.at <= if start > ctx.deadline.value then start else ctx.deadline.value)
  {
    CountsCalls(ctx, cfg, w, start, 1, start, horizon);
    EndsInTime(ctx, cfg, w, start, 1, start, horizon);
  }

  // ----- When the loop goes on, and how it ends -----

  predicate TryLeft(cfg: Config, attempt: nat) {
    cfg.maxTries == 0 || attempt < cfg.maxTries
  }

  /** A backoff is given, the caller agrees, and the wait fits the time allowed. */
  predicate MayWait(cfg: Config, w: World, start: int, attempt: nat, failedAt: int) {
    && w.backoff(attempt).Some? && w.shouldRetry(attempt)
    && (cfg.maxElapsed > 0 ==> failedAt + w.backoff(attempt).value <= start + cfg.maxElapsed)
  }

  predicate EndsAfter(end: Option<int>, at: int, timerWins: bool) {
    end.Some? ==> at < end.value || (at == end.value && timerWins)
  }

  predicate Outlasts(ctx: Context, at: int, timerWins: bool) {
    EndsAfter(ctx.deadline, at, timerWins) && EndsAfter(ctx.cancelled, at, timerWins)
  }

  /** The attempt fails and another one follows. */
  predicate GoesOn(ctx: Context, cfg: Config, w: World, start: int, attempt: nat, now: int) {
    var failedAt := now + w.takes(attempt, now);
    && w.fn(attempt).Failure? && TryLeft(cfg, attempt) && !ctx.DoneBy(failedAt)
    && MayWait(cfg, w, start, attempt, failedAt)
    && Outlasts(ctx, failedAt + w.backoff(attempt).value, w.timerWins(attempt))
  }

  /** When attempt `n` starts: after all calls and waits before it. */
  function StartOf(w: World, start: int, n: nat): int
    requires n > 0
  {
    if n == 1 then start else
    var before := StartOf(w, start, n - 1);
    before + w.takes(n - 1, before) + if w.backoff(n - 1).Some? then w.backoff(n - 1).value else 0
  }

  /** Every attempt before `n` goes on. */
  predicate Reaches(ctx: Context, cfg: Config, w: World, start: int, n: nat) {
    forall i :: 1 <= i < n ==> GoesOn(ctx, cfg, w, start, i, StartOf(w, start, i))
  }

  lemma GoesOnIff(ctx: Context, cfg: Config, w: World, start: int, attempt: nat, now: int)
    ensures RoundOf(ctx, cfg, w, start, attempt, now).Again? <==> GoesOn(ctx, cfg, w, start, attempt, now)
  {
  }

  /** Why the loop stops after a call that starts at `now`, and when: a success; a failure with no try left, or
      without leave to wait; or the end of the context, before the call returned or during the wait. */
  ghost predicate StopsRightly(ctx: Context, cfg: Config, w: World, start: int, now: int, r: Report)
    requires r.calls > 0
  {
    var n := r.calls;
    var failedAt := now + w.takes(n, now);
    match r.how
    case Succeeded(v) => w.fn(n) == Success(v) && r.at == failedAt && r.notified == n - 1
    case Failed(e) =>
      && w.fn(n) == Failure(e) && r.at == failedAt && r.notified == n - 1
      && (!TryLeft(cfg, n) || (!ctx.DoneBy(failedAt) && !MayWait(cfg, w, start, n, failedAt)))
    case ContextDone =>
      && w.fn(n).Failure? && TryLeft(cfg, n)
      && (if ctx.DoneBy(failedAt) then r.at == failedAt && r.notified == n - 1
          else
            && MayWait(cfg, w, start, n, failedAt)
            && !Outlasts(ctx, failedAt + w.backoff(n).value, w.timerWins(n))
            && ctx.DoneBy(r.at) && (forall t :: t < r.at ==> !ctx.DoneBy(t)) && r.notified == n)
    case StillRunning => GoesOn(ctx, cfg, w, start, n, now) && r.notified == n
  }

  lemma {:induction false} GoesAsFarAsItMay(ctx: Context, cfg: Config, w: World, start: int, attempt: nat, horizon: nat)
    requires 0 < attempt <= horizon && Reaches(ctx, cfg, w, start, attempt)
    ensures var r := Rounds(ctx, cfg, w, start, attempt, StartOf(w, start, attempt), horizon);
      && attempt <= r.calls <= horizon && Reaches(ctx, cfg, w, start, r.calls)
      && StopsRightly(ctx, cfg, w, start, StartOf(w, start, r.calls), r)
      && (r.how.StillRunning? <==> Reaches(ctx, cfg, w, start, r.calls + 1))
      && (r.how.StillRunning? ==> r.calls == horizon)
    decreases horizon - attempt
  {
    var now := StartOf(w, start, attempt);
    GoesOnIff(ctx, cfg, w, start, attempt, now);
    var round := RoundOf(ctx, cfg, w, start, attempt, now);
    if round.Again? {
      assert round.at == StartOf(w, start, attempt + 1);
      if attempt < horizon { GoesAsFarAsItMay(ctx, cfg, w, start, attempt + 1, horizon); }
    }
  }

  /** Every attempt is made that may be made: attempt `n` exactly if each one before it fails with a try left, the
      context alive, a backoff given, the caller's consent, and time for the wait in what is allowed and in the
      context. */
  lemma AttemptIsMadeIff(ctx: Context, cfg: Config, w: World, start: int, horizon: nat, n: nat)
    requires 0 < n <= horizon
    ensures Rounds(ctx, cfg, w, start, 1, start, horizon).calls >= n <==> Reaches(ctx, cfg, w, start, n)
  {
    GoesAsFarAsItMay(ctx, cfg, w, start, 1, horizon);
    var calls := Rounds(ctx, cfg, w, start, 1, start, horizon).calls;
    if calls < n { assert !Reaches(ctx, cfg, w, start, calls + 1); }
  }

  /** The loop succeeds with `v` exactly if it reaches an attempt that does, and each end it comes to has its
      reason. */
  lemma SucceedsIff(ctx: Context, cfg: Config, w: World, start: int, horizon: nat, v: int)
    requires horizon > 0
    ensures var r := Rounds(ctx, cfg, w, start, 1, start, horizon);
      && r.calls > 0 && StopsRightly(ctx, cfg, w, start, StartOf(w, start, r.calls), r)
      && (r.how == Succeeded(v) <==>
            exists n :: 1 <= n <= horizon && Reaches(ctx, cfg, w, start, n) && w.fn(n) == Success(v))
  {
    GoesAsFarAsItMay(ctx, cfg, w, start, 1, horizon);
    var r := Rounds(ctx, cfg, w, start, 1, start, horizon);
    forall n | 1 <= n <= horizon && Reaches(ctx, cfg, w, start, n) && w.fn(n) == Success(v)
      ensures n == r.calls
    {
      AttemptIsMadeIff(ctx, cfg, w, start, horizon, n);
      assert !GoesOn(ctx, cfg, w, start, n, StartOf(w, start, n));
    }
  }

  /** `Retry`. */
  method Retry(ctx: Context, cfg: Config, w: World, start: int, horizon: nat) returns (r: Report)
    ensures r == Rounds(ctx, cfg, w, start, 1, start, horizon)
  {
    var at := start;
    var calls, notified := 0, 0;
    var attempt := 1;
    while attempt <= horizon
      invariant 1 <= attempt <= horizon + 1 && calls == notified == attempt - 1
      invariant Rounds(ctx, cfg, w, start, 1, start, horizon) == Rounds(ctx, cfg, w, start, attempt, at, horizon)
    {
      var res := w.fn(attempt);
      at := at + w.takes(attempt, at);
      calls := calls + 1;
      if res.Success? {
        return Report(Succeeded(res.value), at, calls, notified);
      }
      if cfg.maxTries > 0 && attempt >= cfg.maxTries {
        return Report(Failed(res.error), at, calls, notified);
      }
      if ctx.DoneBy(at) {
        return Report(ContextDone, at, calls, notified);
      }
      var next := w.backoff(attempt);
      if next.None? {
        return Report(Failed(res.error), at, calls, notified);
      }
      if !w.shouldRetry(attempt) {
        return Report(Failed(res.error), at, calls, notified);
      }
      if cfg.maxElapsed > 0 && at - start + next.value > cfg.maxElapsed {
        return Report(Failed(res.error), at, calls, notified);
      }
      notified := notified + 1;
      var done := EarliestDone(ctx);
      if done.Some? && (done.value < at + next.value || (done.value == at + next.value && !w.timerWins(attempt))) {
        return Report(ContextDone, done.value, calls, notified);
      }
      at := at + next.value;
      attempt := attempt + 1;
    }
    return Report(StillRunning, at, calls, notified);
  }
}
