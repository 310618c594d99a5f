/** The derived clock against the time it stands for, over every run of requests. */
module AttemptClock {
  import opened Wrappers
  import opened Attempts

  // ---------- the time an attempt was really running ----------

  /** active: microseconds spent in progress and not paused; windows: how many times that stopped; at: the last event. */
  datatype Meter = Meter(active: nat, windows: nat, at: Instant)

  function ActiveAt(s: State, m: Meter, now: Instant): nat
    requires m.at <= now
  {
    m.active + if s.Running() then now - m.at else 0
  }

  function Metered(s: State, s': State, m: Meter, now: Instant): Meter
    requires m.at <= now
  {
    Meter(ActiveAt(s, m, now), m.windows + (if s.Running() && !s'.Running() && s'.submittedAt.None? then 1 else 0), now)
  }

  datatype Timed = Timed(now: Instant, request: Request, cfg: Settings)

  ghost predicate InOrder(events: seq<Timed>, from: Instant) {
    forall i :: 0 <= i < |events| ==> from <= events[i].now && forall j :: 0 <= j < i ==> events[j].now <= events[i].now
  }

  function Run(s: State, m: Meter, events: seq<Timed>): (r: (State, Meter))
    requires InOrder(events, m.at)
    decreases |events|
  {
    if events == [] then (s, m)
    else
      var e := events[0];
      var s' := Step(s, e.request, e.now, e.cfg);
      assert forall i :: 0 <= i < |events[1..]| ==> events[1..][i] == events[i + 1] && events[0].now <= events[i + 1].now;
      Run(s', Metered(s, s', m, e.now), events[1..])
  }

  // ---------- the invariant ----------

  /** When the present dead window began. */
  function StoppedAt(s: State): Instant
    requires s.pausedAt.Some? || s.abandonedAt.Some?
  {
    if s.pausedAt.Some? then s.pausedAt.value else s.abandonedAt.value
  }

  /** banked seconds of n windows that lasted dead microseconds: each window lost less than a second. */
  predicate Accounts(banked: nat, dead: int, n: nat) {
    banked * SECOND <= dead <= banked * SECOND + n * (SECOND - 1)
  }

  predicate Lifecycle(s: State) {
    (s.submittedAt.None? <==> s.status == InProgress || s.status == Abandoned) &&
    (s.status == Submitted || s.status == Graded ==> s.pausedAt.None?) &&
    (s.status == Abandoned ==> s.abandonedAt.Some?)
  }

  predicate ClockInv(s: State, m: Meter) {
    Lifecycle(s) && s.startedAt <= m.at &&
    (s.Running() ==> Accounts(s.pausedSeconds, m.at - s.startedAt - m.active, m.windows)) &&
    (s.submittedAt.None? && !s.Running() ==>
      m.windows > 0 && s.startedAt <= StoppedAt(s) <= m.at &&
      Accounts(s.pausedSeconds, StoppedAt(s) - s.startedAt - m.active, m.windows - 1))
  }

  lemma FloorBounds(duration: nat)
    ensures Seconds(duration) * SECOND <= duration < Seconds(duration) * SECOND + SECOND
  {
  }

  lemma BankOne(banked: nat, dead: int, n: nat, window: nat)
    requires Accounts(banked, dead, n)
    ensures Accounts(banked + Seconds(window), dead + window, n + 1)
  {
    FloorBounds(window);
  }

  lemma StepKeepsClock(s: State, m: Meter, r: Request, now: Instant, cfg: Settings)
    requires ClockInv(s, m) && m.at <= now
    ensures var s' := Step(s, r, now, cfg); ClockInv(s', Metered(s, s', m, now))
  {
    var s' := Step(s, r, now, cfg);
    if s.submittedAt.None? && !s.Running() && s'.Running() {
      BankOne(s.pausedSeconds, StoppedAt(s) - s.startedAt - m.active, m.windows - 1, now - StoppedAt(s));
    }
  }

  lemma {:induction false} RunKeepsClock(s: State, m: Meter, events: seq<Timed>)
    requires ClockInv(s, m) && InOrder(events, m.at)
    ensures ClockInv(Run(s, m, events).0, Run(s, m, events).1)
    decreases |events|
  {
    if events != [] {
      var e := events[0];
      var s' := Step(s, e.request, e.now, e.cfg);
      StepKeepsClock(s, m, e.request, e.now, e.cfg);
      assert forall i :: 0 <= i < |events[1..]| ==> events[1..][i] == events[i + 1];
      RunKeepsClock(s', Metered(s, s', m, e.now), events[1..]);
    }
  }

  // ---------- elapsed time, in microseconds ----------

  /** While in progress the derived clock is above the true active time less a second, and below it plus one second a
      dead window (one second when there was none). */
  lemma ElapsedDrifts(s: State, m: Meter, now: Instant)
    requires ClockInv(s, m) && s.status == InProgress && m.at <= now
    ensures ActiveAt(s, m, now) - SECOND < Elapsed(s, now) * SECOND < ActiveAt(s, m, now) + Max(1, m.windows) * SECOND
  {
    FloorBounds(now - s.startedAt);
    if s.Running() {
      assert Accounts(s.pausedSeconds, now - s.startedAt - ActiveAt(s, m, now), m.windows);
    } else {
      FloorBounds(now - StoppedAt(s));
    }
  }

  /** Over every run from the attempt's start. */
  lemma EveryRunDrifts(start: Instant, events: seq<Timed>, now: Instant)
    requires InOrder(events, start)
    requires Run(Begun(start), Meter(0, 0, start), events).1.at <= now
    ensures var (s, m) := Run(Begun(start), Meter(0, 0, start), events);
            s.status == InProgress ==>
            ActiveAt(s, m, now) - SECOND < Elapsed(s, now) * SECOND < ActiveAt(s, m, now) + Max(1, m.windows) * SECOND
  {
    var (s, m) := Run(Begun(start), Meter(0, 0, start), events);
    RunKeepsClock(Begun(start), Meter(0, 0, start), events);
    if s.status == InProgress {
      ElapsedDrifts(s, m, now);
    }
  }

  // ---------- elapsed time, on a clock of whole seconds ----------

  predicate Whole(t: Instant) {
    t % SECOND == 0
  }

  predicate WholeState(s: State) {
    Whole(s.startedAt) && (s.pausedAt.Some? ==> Whole(s.pausedAt.value)) && (s.abandonedAt.Some? ==> Whole(s.abandonedAt.value))
  }

  /** Nothing is lost when every window is whole seconds. */
  predicate ExactInv(s: State, m: Meter) {
    ClockInv(s, m) && WholeState(s) && Whole(m.at) &&
    (s.Running() ==> s.pausedSeconds * SECOND == m.at - s.startedAt - m.active) &&
    (s.submittedAt.None? && !s.Running() ==> s.pausedSeconds * SECOND == StoppedAt(s) - s.startedAt - m.active)
  }

  lemma WholeSeconds(later: Instant, earlier: Instant)
    requires Whole(later) && Whole(earlier) && earlier <= later
    ensures Seconds(later - earlier) * SECOND == later - earlier
  {
  }

  lemma StepIsExact(s: State, m: Meter, r: Request, now: Instant, cfg: Settings)
    requires ExactInv(s, m) && m.at <= now && Whole(now)
    ensures var s' := Step(s, r, now, cfg); ExactInv(s', Metered(s, s', m, now))
  {
    StepKeepsClock(s, m, r, now, cfg);
    hide ActiveSlice, Elapsed, Inactive, ClockInv;
    if s.submittedAt.None? && !s.Running() {
      WholeSeconds(now, StoppedAt(s));
    }
  }

  lemma {:induction false} RunIsExact(s: State, m: Meter, events: seq<Timed>)
    requires ExactInv(s, m) && InOrder(events, m.at) && forall i :: 0 <= i < |events| ==> Whole(events[i].now)
    ensures ExactInv(Run(s, m, events).0, Run(s, m, events).1)
    decreases |events|
  {
    if events != [] {
      var e := events[0];
      var s' := Step(s, e.request, e.now, e.cfg);
      StepIsExact(s, m, e.request, e.now, e.cfg);
      assert forall i :: 0 <= i < |events[1..]| ==> events[1..][i] == events[i + 1];
      RunIsExact(s', Metered(s, s', m, e.now), events[1..]);
    }
  }

  lemma ElapsedIsExact(s: State, m: Meter, now: Instant)
    requires ExactInv(s, m) && s.status == InProgress && m.at <= now && Whole(now)
    ensures Elapsed(s, now) * SECOND == ActiveAt(s, m, now)
  {
    WholeSeconds(now, s.startedAt);
    if !s.Running() {
      WholeSeconds(now, StoppedAt(s));
    }
  }

  /** On a clock of whole seconds, whenever an attempt is in progress its elapsed seconds are exactly the seconds it has
      been in progress and not paused, over any run of saves, pauses, resumes, abandons, reaps and resurrections. */
  lemma EveryRunIsExact(start: Instant, events: seq<Timed>, now: Instant)
    requires Whole(start) && Whole(now) && InOrder(events, start) && forall i :: 0 <= i < |events| ==> Whole(events[i].now)
    requires Run(Begun(start), Meter(0, 0, start), events).1.at <= now
    ensures var (s, m) := Run(Begun(start), Meter(0, 0, start), events);
            s.status == InProgress ==> Elapsed(s, now) * SECOND == ActiveAt(s, m, now)
  {
    var (s, m) := Run(Begun(start), Meter(0, 0, start), events);
    RunIsExact(Begun(start), Meter(0, 0, start), events);
    if s.status == InProgress {
      ElapsedIsExact(s, m, now);
    }
  }

  // ---------- the lifecycle ----------

  /** Over every run: submitted_at is unset exactly while the attempt is in progress or abandoned, and an attempt handed
      in is never paused. */
  lemma EveryRunKeepsLifecycle(start: Instant, events: seq<Timed>)
    requires InOrder(events, start)
    ensures Lifecycle(Run(Begun(start), Meter(0, 0, start), events).0)
  {
    RunKeepsClock(Begun(start), Meter(0, 0, start), events);
  }

  predicate HandedOver(s: State) {
    s.status == Submitted || s.status == Graded
  }

  /** An attempt handed in stays handed in, with its hand-in time, and once graded nothing changes it. */
  lemma {:induction false} HandedInForGood(s: State, m: Meter, events: seq<Timed>)
    requires HandedOver(s) && InOrder(events, m.at)
    ensures var s' := Run(s, m, events).0;
            HandedOver(s') && s'.submittedAt == s.submittedAt && (s.status == Graded ==> s' == s)
    decreases |events|
  {
    if events != [] {
      var e := events[0];
      var s' := Step(s, e.request, e.now, e.cfg);
      assert forall i :: 0 <= i < |events[1..]| ==> events[1..][i] == events[i + 1];
      HandedInForGood(s', Metered(s, s', m, e.now), events[1..]);
    }
  }

  // ---------- the lifetime gates ----------

  /** A resurrected attempt is not refused by the gate of a save or a submit at that instant. */
  lemma ResurrectedPassesTheGates(s: State, now: Instant, cfg: Settings, answerSeconds: nat)
    requires s.status == Abandoned && Resumed(s, now, cfg).status == InProgress
    ensures var s' := Resumed(s, now, cfg);
            !Expired(s', now, cfg) && Saved(s', now, cfg, true).status == InProgress &&
            HandedIn(s', now, cfg, true, answerSeconds).status == Submitted
  {
  }

  /** At one instant the save gate, the submit gate and the resurrect gate let the same attempts through. */
  lemma GatesAgree(s: State, now: Instant, cfg: Settings, answerSeconds: nat)
    requires s.status == InProgress && Lifecycle(s)
    ensures Saved(s, now, cfg, true).status == InProgress <==> HandedIn(s, now, cfg, true, answerSeconds).status == Submitted
    ensures Saved(s, now, cfg, true).status == InProgress <==> Resumed(GivenUp(s, now), now, cfg).status == InProgress
  {
    var gone := GivenUp(s, now);
    assert Gap(gone, now) == 0;
    assert Elapsed(Revived(gone, now), now) == Elapsed(s, now);
  }

  function Fraction(duration: nat): nat {
    duration % SECOND
  }

  lemma SecondsAdd(a: nat, b: nat)
    ensures Seconds(a + b) == Seconds(a) + Seconds(b) + if Fraction(a) + Fraction(b) >= SECOND then 1 else 0
  {
  }

  /** A pause of any length moves the frozen clock by the second its fractions carry over, and by nothing else. */
  lemma PausedClock(s: State, m: Meter, from: Instant, now: Instant)
    requires ClockInv(s, m) && s.Running() && m.at <= from <= now
    ensures Elapsed(Paused(s, from), now) == Elapsed(s, from) +
      if Fraction(from - s.startedAt) + Fraction(now - from) >= SECOND then 1 else 0
  {
    FloorBounds(from - s.startedAt);
    SecondsAdd(from - s.startedAt, now - from);
  }

  /** After any run, pausing turns an allowed attempt into an expired one exactly when it stood at the limit and the fractions carry. */
  lemma PausingExpiresIff(s: State, m: Meter, from: Instant, now: Instant, cfg: Settings)
    requires ClockInv(s, m) && s.Running() && m.at <= from <= now
    requires !Expired(s, from, cfg)
    ensures Expired(Paused(s, from), now, cfg) <==>
      cfg.maxLife > 0 && Elapsed(s, from) == cfg.maxLife && Fraction(from - s.startedAt) + Fraction(now - from) >= SECOND
  {
    PausedClock(s, m, from, now);
    hide Seconds;
  }

  /** On whole seconds it never does, so an attempt may be paused overnight and handed in the next day. */
  lemma PausingNeverExpires(s: State, m: Meter, from: Instant, now: Instant, cfg: Settings)
    requires ExactInv(s, m) && s.Running() && m.at <= from <= now && Whole(from) && Whole(now)
    requires !Expired(s, from, cfg)
    ensures !Expired(Paused(s, from), now, cfg) && !Expired(Resumed(Paused(s, from), now, cfg), now, cfg)
  {
    WholeSeconds(from, s.startedAt);
    PausingExpiresIff(s, m, from, now, cfg);
    WholeSeconds(now, s.startedAt);
    WholeSeconds(now, from);
  }

  // One second allowed, 1.9 of it used, a pause of 1.1 seconds: three whole seconds less one.
  lemma APauseCanExpire()
    ensures var s, cfg := Begun(0), Settings(1, 0, 0, 0, 0, 0);
            !Expired(s, 1_900_000, cfg) && Expired(Paused(s, 1_900_000), 3_000_000, cfg)
  {
  }
}
