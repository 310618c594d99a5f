/** When each request on an attempt takes effect and what it then records, in the fields and settings themselves. */
module AttemptRules {
  import opened Wrappers
  import opened Attempts

  /** Seconds of running time used by now: since the start, less what was banked and the pause in flight. */
  function Used(s: State, now: Instant): int {
    Max(0, Seconds(now - s.startedAt) - s.pausedSeconds - if s.pausedAt.Some? then Max(0, Seconds(now - s.pausedAt.value)) else 0)
  }

  /** The lifetime is limited and used up. */
  predicate UsedUp(s: State, now: Instant, cfg: Settings) {
    cfg.maxLife > 0 && Used(s, now) > cfg.maxLife
  }

  function LastSign(s: State): Instant {
    if s.lastActivityAt.Some? then s.lastActivityAt.value else s.startedAt
  }

  /** A setting, the default when it is nothing, kept between two bounds. */
  function Setting(given: int, usual: int, lowest: int, highest: int): int {
    Max(lowest, Min(highest, if given == 0 then usual else given))
  }

  /** Seconds added to the active time by a sign of life: the gap since the last one, cut to 45, and nothing for a gap of more
      than 90; both as configured. */
  function Added(s: State, now: Instant, cfg: Settings): int {
    var gap, idle := Seconds(now - LastSign(s)), Setting(cfg.idle, 90, 10, 900);
    if gap <= 0 || gap > idle then 0 else Min(gap, Setting(cfg.slice, 45, 1, idle))
  }

  // ---------- handing in and saving ----------

  /** An attempt is handed in exactly when it is in progress, has life left and is complete; then it bears the instant of the
      request.  Its time is the running time, or its answers' when that is more, and six hours at most. */
  lemma HandsInIff(s: State, now: Instant, cfg: Settings, complete: bool, answerSeconds: nat)
    ensures var after := HandedIn(s, now, cfg, complete, answerSeconds);
            if s.status == InProgress && !UsedUp(s, now, cfg) && complete then
              after == s.(status := Submitted, submittedAt := Some(now), pausedAt := None, lastActivityAt := Some(now),
                          pausedSeconds := after.pausedSeconds, totalSeconds := after.totalSeconds, activeSeconds := after.activeSeconds) &&
              after.pausedSeconds == s.pausedSeconds + (if s.pausedAt.Some? then Max(0, Seconds(now - s.pausedAt.value)) else 0) &&
              after.totalSeconds == Min(21_600, Max(Used(s, now), answerSeconds)) &&
              after.activeSeconds == s.activeSeconds + Added(s, now, cfg)
            else after == s
  {
    assert Elapsed(s, now) == Used(s, now) && Elapsed(Banked(s, now), now) == Used(s, now);
    hide Seconds;
  }

  /** A save is taken exactly when the attempt is in progress with life left and the answer is stored; it ends a pause.  Past its
      life the attempt is given up at that instant; otherwise nothing changes. */
  lemma SavesIff(s: State, now: Instant, cfg: Settings, stored: bool)
    ensures var after := Saved(s, now, cfg, stored);
            if s.status == InProgress && UsedUp(s, now, cfg) then
              after == s.(status := Abandoned, abandonedAt := Some(now), lastActivityAt := Some(now))
            else if s.status == InProgress && stored then
              after == s.(pausedAt := None, lastActivityAt := Some(now), pausedSeconds := after.pausedSeconds, activeSeconds := after.activeSeconds) &&
              after.pausedSeconds == s.pausedSeconds + (if s.pausedAt.Some? then Max(0, Seconds(now - s.pausedAt.value)) else 0) &&
              after.activeSeconds == s.activeSeconds + Added(s, now, cfg)
            else after == s
  {
    assert Elapsed(s, now) == Used(s, now);
    hide Seconds;
  }

  // ---------- coming back ----------

  /** Coming back ends a pause, and puts its whole length in the bank.  An abandoned attempt never handed in comes back too, if it
      was abandoned recently enough and has life left; then the time since is banked, or since its pause began if it was paused. */
  lemma ResumesIff(s: State, now: Instant, cfg: Settings)
    ensures var gap := if s.abandonedAt.Some? then Max(0, Seconds(now - s.abandonedAt.value)) else 0;
            var dead := if s.pausedAt.Some? then Max(0, Seconds(now - s.pausedAt.value)) else gap;
            var used := Max(0, Seconds(now - s.startedAt) - s.pausedSeconds - dead);
            var recent := cfg.window <= 0 || gap <= cfg.window;
            var after := s.(pausedAt := None, pausedSeconds := s.pausedSeconds + dead, lastActivityAt := Some(now));
            Resumed(s, now, cfg) ==
              if s.status == InProgress && s.pausedAt.Some? then after
              else if s.status == Abandoned && s.submittedAt.None? && recent && (cfg.maxLife <= 0 || used <= cfg.maxLife)
              then after.(status := InProgress, abandonedAt := None)
              else s
  {
    hide Seconds;
  }

  // ---------- the reaper ----------

  /** The reaper takes an attempt in progress exactly when it has been silent for the timeout (an hour if nothing is set, five
      minutes to a week) or, paused, has been paused for its own (three days if nothing is set, the timeout to thirty days). */
  lemma ReapsIff(s: State, now: Instant, cfg: Settings)
    ensures var timeout := Setting(cfg.timeout, 3600, 300, 604_800);
            var paused := Setting(cfg.pausedTimeout, 259_200, timeout, 2_592_000);
            var silent := if s.pausedAt.Some? then s.pausedAt.value + paused * 1_000_000 <= now
                          else LastSign(s) + timeout * 1_000_000 <= now;
            Reaped(s, now, cfg) ==
              if s.status == InProgress && silent
              then s.(status := Abandoned, abandonedAt := Some(now), lastActivityAt := Some(now)) else s
  {
  }

  // An hour of silence is reaped and a pause of two hours is not, when nothing is set.
  lemma AnHourOfSilence(s: State, now: Instant, cfg: Settings)
    requires s.status == InProgress && cfg.timeout == 0 && cfg.pausedTimeout == 0
    ensures s.pausedAt.None? && LastSign(s) + 3_600_000_000 <= now ==> Reaped(s, now, cfg).status == Abandoned
    ensures s.pausedAt.None? && now < LastSign(s) + 3_600_000_000 ==> Reaped(s, now, cfg) == s
    ensures s.pausedAt.Some? && now <= s.pausedAt.value + 7_200_000_000 ==> Reaped(s, now, cfg) == s
  {
    ReapsIff(s, now, cfg);
  }
}
