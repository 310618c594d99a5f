/**
 A student's attempt at an assessment: what each request does to its clock and its status.  Time is in microseconds;
 each request reads the clock once.
 */
module Attempts {
  import opened Wrappers

  /** Microseconds since some moment before every attempt. */
  type Instant = nat

  const SECOND := 1_000_000
  const HOUR := 60 * 60
  const DAY := 24 * HOUR
  const SPAN_CAP := 6 * HOUR

  /** Whole seconds of a duration, cut toward zero. */
  function Seconds(duration: int): int {
    if duration >= 0 then duration / SECOND else -((-duration) / SECOND)
  }

  datatype Status = InProgress | Submitted | Graded | Abandoned

  datatype State = State(
    status: Status,
    startedAt: Instant,
    submittedAt: Option<Instant>,
    abandonedAt: Option<Instant>,
    lastActivityAt: Option<Instant>,
    pausedAt: Option<Instant>,
    pausedSeconds: nat,
    activeSeconds: nat,
    totalSeconds: nat)
  {
    predicate Running() { status == InProgress && pausedAt.None? }
  }

  /** The settings as configured; zero or less switches a limit off, or takes the default. */
  datatype Settings = Settings(maxLife: int, window: int, idle: int, slice: int, timeout: int, pausedTimeout: int)
  {
    function Idle(): int { Max(10, Min(15 * 60, if idle == 0 then 90 else idle)) }
    function SliceCap(): int { Max(1, Min(Idle(), if slice == 0 then 45 else slice)) }
    function Timeout(): int { Max(300, Min(7 * DAY, if timeout == 0 then 3600 else timeout)) }
    function PausedTimeout(): int {
      Max(Timeout(), Min(30 * DAY, if pausedTimeout == 0 then 72 * HOUR else pausedTimeout))
    }
  }

  // ---------- the clock ----------

  function InFlight(s: State, now: Instant): nat {
    if s.pausedAt.None? then 0 else Max(0, Seconds(now - s.pausedAt.value))
  }

  function AccumulatedPause(s: State, now: Instant): nat {
    s.pausedSeconds + InFlight(s, now)
  }

  /** Wall time since the start, less the paused windows. */
  function Elapsed(s: State, now: Instant): nat {
    Max(0, Seconds(now - s.startedAt) - AccumulatedPause(s, now))
  }

  /** The lifetime gate. */
  predicate Expired(s: State, now: Instant, cfg: Settings) {
    cfg.maxLife > 0 && Elapsed(s, now) > cfg.maxLife
  }

  /** The window in flight put in the bank and the flag cleared. */
  function Banked(s: State, now: Instant): State {
    s.(pausedSeconds := s.pausedSeconds + InFlight(s, now), pausedAt := None)
  }

  function LastSeen(s: State): Instant {
    if s.lastActivityAt.Some? then s.lastActivityAt.value else s.startedAt
  }

  /** The slice of activity an event adds: the gap since the last one, none when it was idle. */
  function Slice(previous: Instant, now: Instant, cfg: Settings): nat {
    var delta := Seconds(now - previous);
    if 0 < delta <= cfg.Idle() then Min(cfg.SliceCap(), delta) else 0
  }

  function ActiveSlice(s: State, now: Instant, cfg: Settings): nat {
    Slice(LastSeen(s), now, cfg)
  }

  // ---------- the requests ----------

  function GaveUp(s: State, now: Instant): State {
    s.(status := Abandoned, abandonedAt := Some(now), lastActivityAt := Some(now))
  }

  /** An answer is saved.  stored says whether the question belongs to the attempt and the write is not stale. */
  function Saved(s: State, now: Instant, cfg: Settings, stored: bool): State {
    if s.status != InProgress then s
    else if Expired(s, now, cfg) then GaveUp(s, now)
    else if !stored then s
    else
      Banked(s, now).(activeSeconds := s.activeSeconds + ActiveSlice(s, now, cfg), lastActivityAt := Some(now))
  }

  /** The clock of an attempt as it is handed in. */
  function Closed(s: State, now: Instant, cfg: Settings, answerSeconds: nat): State {
    var banked := Banked(s, now);
    banked.(status := Submitted, submittedAt := Some(now),
            totalSeconds := Max(Max(0, Min(SPAN_CAP, Elapsed(banked, now))), Min(SPAN_CAP, answerSeconds)),
            activeSeconds := s.activeSeconds + ActiveSlice(s, now, cfg), lastActivityAt := Some(now))
  }

  /** The attempt is handed in.  complete says whether the answers it must have are there. */
  function HandedIn(s: State, now: Instant, cfg: Settings, complete: bool, answerSeconds: nat): State {
    if s.status != InProgress || Expired(s, now, cfg) || !complete then s else Closed(s, now, cfg, answerSeconds)
  }

  function GivenUp(s: State, now: Instant): State {
    if s.status == InProgress then GaveUp(s, now) else s
  }

  function Paused(s: State, now: Instant): State {
    if s.status == InProgress && s.pausedAt.None? then s.(pausedAt := Some(now)) else s
  }

  /** How long ago the attempt was abandoned, and the dead time to bank: the whole pause it was abandoned in, if any. */
  function Gap(s: State, now: Instant): nat {
    if s.abandonedAt.None? then 0 else Max(0, Seconds(now - s.abandonedAt.value))
  }

  function Revived(s: State, now: Instant): State {
    s.(pausedSeconds := s.pausedSeconds + (if s.pausedAt.Some? then InFlight(s, now) else Gap(s, now)), pausedAt := None)
  }

  function Resumed(s: State, now: Instant, cfg: Settings): State {
    if s.status == Abandoned && s.submittedAt.None? then
      if (cfg.window <= 0 || Gap(s, now) <= cfg.window) && !Expired(Revived(s, now), now, cfg) then
        Revived(s, now).(status := InProgress, abandonedAt := None, lastActivityAt := Some(now))
      else
        s
    else if s.status == InProgress && s.pausedAt.Some? then
      Banked(s, now).(lastActivityAt := Some(now))
    else
      s
  }

  /** Whether the reaper takes the attempt: a pause has its own, longer leash. */
  predicate Inactive(s: State, now: Instant, cfg: Settings) {
    if s.pausedAt.Some? then s.pausedAt.value <= now - cfg.PausedTimeout() * SECOND
    else LastSeen(s) <= now - cfg.Timeout() * SECOND
  }

  function Reaped(s: State, now: Instant, cfg: Settings): State {
    if s.status == InProgress && Inactive(s, now, cfg) then GaveUp(s, now) else s
  }

  function MarkedGraded(s: State, answerSeconds: nat): State {
    if s.status == Submitted then s.(status := Graded, totalSeconds := Max(s.totalSeconds, answerSeconds)) else s
  }

  datatype Request =
    | Save(stored: bool)
    | Submit(complete: bool, answerSeconds: nat)
    | Abandon
    | Pause
    | Resume
    | Reap
    | Grade(gradedSeconds: nat)

  function Step(s: State, r: Request, now: Instant, cfg: Settings): State {
    match r
    case Save(stored) => Saved(s, now, cfg, stored)
    case Submit(complete, seconds) => HandedIn(s, now, cfg, complete, seconds)
    case Abandon => GivenUp(s, now)
    case Pause => Paused(s, now)
    case Resume => Resumed(s, now, cfg)
    case Reap => Reaped(s, now, cfg)
    case Grade(seconds) => MarkedGraded(s, seconds)
  }

  /** A new attempt. */
  function Begun(now: Instant): State {
    State(InProgress, now, None, None, Some(now), None, 0, 0, 0)
  }
}
