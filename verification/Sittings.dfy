/** One student's attempts at one homework: starting one, finding it again, and the questions each is frozen to. */
module Sittings {
  import opened Wrappers
  import opened Attempts

  /** An attempt's row: its clock, and the ids of the questions it covers, in order. */
  datatype Sitting = Sitting(clock: State, order: seq<nat>)

  predicate InProgressAt(sittings: seq<Sitting>, i: nat) {
    i < |sittings| && sittings[i].clock.status == InProgress
  }

  /** The table's rule: a student has one attempt in progress at a homework. */
  ghost predicate OneInProgress(sittings: seq<Sitting>) {
    forall i: nat, j: nat :: InProgressAt(sittings, i) && InProgressAt(sittings, j) ==> i == j
  }

  /** The attempt in progress, the newest first. */
  function Current(sittings: seq<Sitting>): (r: Option<nat>)
    ensures r.Some? ==> InProgressAt(sittings, r.value)
    ensures r.None? ==> forall i: nat :: !InProgressAt(sittings, i)
  {
    if sittings == [] then None
    else if sittings[|sittings| - 1].clock.status == InProgress then Some(|sittings| - 1)
    else
      assert forall i: nat :: InProgressAt(sittings, i) ==> InProgressAt(sittings[..|sittings| - 1], i);
      Current(sittings[..|sittings| - 1])
  }

  // ---------- starting ----------

  /** The live questions asked for, in the live order. */
  function Focused(live: seq<nat>, focus: set<nat>): (r: seq<nat>)
    ensures forall id :: id in r <==> id in live && id in focus
    ensures forall a, b :: 0 <= a < b < |live| && live[a] in focus && live[b] in focus ==> InOrder(r, live[a], live[b])
  {
    if live == [] then []
    else
      var init, last := live[..|live| - 1], live[|live| - 1];
      var before := Focused(init, focus);
      var r := before + if last in focus then [last] else [];
      assert live == init + [last];
      assert forall a, b :: 0 <= a < b < |live| && live[a] in focus && live[b] in focus ==> InOrder(r, live[a], live[b]) by {
        forall a, b | 0 <= a < b < |live| && live[a] in focus && live[b] in focus ensures InOrder(r, live[a], live[b]) {
          if b < |init| {
            assert InOrder(before, init[a], init[b]);
            var i, j :| 0 <= i < j < |before| && before[i] == live[a] && before[j] == live[b];
            assert r[i] == live[a] && r[j] == live[b];
          } else {
            assert init[a] in before;
            var i :| 0 <= i < |before| && before[i] == live[a];
            assert r[i] == live[a] && r[|before|] == live[b];
          }
        }
      }
      r
  }

  predicate InOrder(ids: seq<nat>, a: nat, b: nat) {
    exists i, j :: 0 <= i < j < |ids| && ids[i] == a && ids[j] == b
  }

  datatype Refusal = NotAvailable | NoneOfTheFocus | AlreadyInProgress

  datatype Outcome = Started(sittings: seq<Sitting>, index: nat) | Refused(why: Refusal)

  function WithActivity(clock: State, now: Instant): State {
    if clock.lastActivityAt.None? then clock.(lastActivityAt := Some(now)) else clock
  }

  /** live is the set's active questions now; focus the only ones asked for, when not empty; visible whether the homework
      is open to students. */
  function Start(sittings: seq<Sitting>, live: seq<nat>, focus: set<nat>, visible: bool, now: Instant): Outcome {
    var current := Current(sittings);
    if !visible && current.None? then Refused(NotAvailable)
    else if focus == {} && current.Some? then
      var i, found := current.value, sittings[current.value];
      Started(sittings[i := Sitting(WithActivity(found.clock, now), if found.order == [] then live else found.order)], i)
    else
      var order := if focus == {} then live else Focused(live, focus);
      if focus != {} && order == [] then Refused(NoneOfTheFocus)
      else if current.Some? then Refused(AlreadyInProgress)
      else Started(sittings + [Sitting(Begun(now), order)], |sittings|)
  }

  // ---------- a request on one attempt ----------

  /** The table refuses an attempt that comes back to life beside another in progress. */
  function Asked(sittings: seq<Sitting>, i: nat, request: Request, now: Instant, cfg: Settings): seq<Sitting>
    requires i < |sittings|
  {
    var next := Step(sittings[i].clock, request, now, cfg);
    if next.status == InProgress && Current(sittings).Some? && !InProgressAt(sittings, i) then sittings
    else sittings[i := sittings[i].(clock := next)]
  }

  /** The rows as the views keep them. */
  class StudentSittings {
    var sittings: seq<Sitting>

    constructor ()
      ensures sittings == []
    {
      sittings := [];
    }

    method StartAttempt(live: seq<nat>, focus: set<nat>, visible: bool, now: Instant) returns (r: Outcome)
      modifies this
      ensures r == Start(old(sittings), live, focus, visible, now)
      ensures sittings == if r.Started? then r.sittings else old(sittings)
    {
      var current := Current(sittings);
      if !visible && current.None? {
        return Refused(NotAvailable);
      }
      if focus == {} && current.Some? {
        var i, found := current.value, sittings[current.value];
        if found.clock.lastActivityAt.None? {
          found := found.(clock := found.clock.(lastActivityAt := Some(now)));
        }
        if found.order == [] {
          found := found.(order := live);
        }
        sittings := sittings[i := found];
        return Started(sittings, i);
      }
      var order := live;
      if focus != {} {
        order := Focused(order, focus);
        if order == [] {
          return Refused(NoneOfTheFocus);
        }
      }
      if current.Some? {
        return Refused(AlreadyInProgress);
      }
      sittings := sittings + [Sitting(Begun(now), order)];
      return Started(sittings, |sittings| - 1);
    }

    method Ask(i: nat, request: Request, now: Instant, cfg: Settings) returns (refused: bool)
      requires i < |sittings|
      modifies this
      ensures sittings == Asked(old(sittings), i, request, now, cfg)
      ensures refused ==> sittings == old(sittings)
    {
      var next := Step(sittings[i].clock, request, now, cfg);
      if next.status == InProgress && Current(sittings).Some? && !InProgressAt(sittings, i) {
        return true;
      }
      sittings := sittings[i := sittings[i].(clock := next)];
      return false;
    }
  }

  // ---------- runs ----------

  datatype Happening =
    | Starting(live: seq<nat>, focus: set<nat>, visible: bool)
    | Asking(index: nat, request: Request, cfg: Settings)

  datatype Event = Event(now: Instant, what: Happening)

  function After(sittings: seq<Sitting>, e: Event): seq<Sitting> {
    match e.what
    case Starting(live, focus, visible) =>
      var r := Start(sittings, live, focus, visible, e.now);
      if r.Started? then r.sittings else sittings
    case Asking(i, request, cfg) =>
      if i < |sittings| then Asked(sittings, i, request, e.now, cfg) else sittings
  }

  function Run(sittings: seq<Sitting>, events: seq<Event>): seq<Sitting> {
    if events == [] then sittings else After(Run(sittings, events[..|events| - 1]), events[|events| - 1])
  }

  /** Attempts are never removed, never begin anew, and once frozen to questions stay frozen to them. */
  ghost predicate Frozen(before: seq<Sitting>, after: seq<Sitting>) {
    |before| <= |after| && forall i :: 0 <= i < |before| ==>
      after[i].clock.startedAt == before[i].clock.startedAt && (before[i].order != [] ==> after[i].order == before[i].order)
  }

  lemma StepKeepsStart(s: State, r: Request, now: Instant, cfg: Settings)
    ensures Step(s, r, now, cfg).startedAt == s.startedAt
    ensures s.lastActivityAt.Some? ==> Step(s, r, now, cfg).lastActivityAt.Some?
  {
  }

  lemma AfterKeeps(sittings: seq<Sitting>, e: Event)
    requires OneInProgress(sittings)
    ensures OneInProgress(After(sittings, e)) && Frozen(sittings, After(sittings, e))
  {
    var after := After(sittings, e);
    if e.what.Asking? && e.what.index < |sittings| {
      StepKeepsStart(sittings[e.what.index].clock, e.what.request, e.now, e.what.cfg);
      hide Step;
    }
    forall i: nat, j: nat | InProgressAt(after, i) && InProgressAt(after, j) ensures i == j {
      var current := Current(sittings);
      assert i < |sittings| && InProgressAt(sittings, i) ==> current.Some? && current.value == i;
      assert j < |sittings| && InProgressAt(sittings, j) ==> current.Some? && current.value == j;
    }
  }

  /** Over every run, whatever is started, asked, and edited in the set: a student has one attempt in progress at most, and
      an attempt's questions never change once it has them. */
  lemma {:induction false} EveryRunKeepsQuestions(sittings: seq<Sitting>, events: seq<Event>)
    requires OneInProgress(sittings)
    ensures OneInProgress(Run(sittings, events)) && Frozen(sittings, Run(sittings, events))
  {
    if events != [] {
      EveryRunKeepsQuestions(sittings, events[..|events| - 1]);
      AfterKeeps(Run(sittings, events[..|events| - 1]), events[|events| - 1]);
    }
  }

  /** Starting again while the attempt is in progress finds it, with its questions, whatever the set has become and even if
      the homework has been hidden since. */
  lemma StartAgainFindsIt(
    sittings: seq<Sitting>, live: seq<nat>, visible: bool, now: Instant, events: seq<Event>,
    later: Instant, live': seq<nat>, visible': bool)
    requires OneInProgress(sittings) && Start(sittings, live, {}, visible, now).Started?
    requires var r := Start(sittings, live, {}, visible, now);
             r.sittings[r.index].order != [] && InProgressAt(Run(r.sittings, events), r.index)
    ensures var r := Start(sittings, live, {}, visible, now);
            var again := Start(Run(r.sittings, events), live', {}, visible', later);
            again.Started? && again.index == r.index && again.sittings[r.index].order == r.sittings[r.index].order
  {
    var r := Start(sittings, live, {}, visible, now);
    AfterKeeps(sittings, Event(now, Starting(live, {}, visible)));
    EveryRunKeepsQuestions(r.sittings, events);
  }

  /** With none in progress a plain start begins a new attempt on all the live questions, if the homework is open to students. */
  lemma PlainStartBegins(sittings: seq<Sitting>, live: seq<nat>, visible: bool, now: Instant)
    requires forall i: nat :: !InProgressAt(sittings, i)
    ensures Start(sittings, live, {}, visible, now) ==
      if visible then
        Started(sittings + [Sitting(State(InProgress, now, None, None, Some(now), None, 0, 0, 0), live)], |sittings|)
      else Refused(NotAvailable)
  {
  }

  /** With one in progress a plain start finds it, open to students or not: an attempt without questions gets the live ones, one
      without a last activity gets this one, and nothing else changes. */
  lemma PlainStartFinds(sittings: seq<Sitting>, live: seq<nat>, visible: bool, now: Instant, i: nat)
    requires OneInProgress(sittings) && InProgressAt(sittings, i)
    ensures var was := sittings[i];
            Start(sittings, live, {}, visible, now) == Started(sittings[i := Sitting(
              was.clock.(lastActivityAt := if was.clock.lastActivityAt.None? then Some(now) else was.clock.lastActivityAt),
              if was.order == [] then live else was.order)], i)
  {
    assert Current(sittings) == Some(i);
    var was := sittings[i];
    assert was.clock.lastActivityAt.Some? ==> was.clock.(lastActivityAt := was.clock.lastActivityAt) == was.clock;
  }

  /** A retry of some questions that does not begin: not open to students and none in progress, or none of the questions is
      live, or, that being in order, one is in progress. */
  lemma FocusRefusedFor(sittings: seq<Sitting>, live: seq<nat>, focus: set<nat>, visible: bool, now: Instant)
    requires focus != {} && Start(sittings, live, focus, visible, now).Refused?
    ensures var idle := forall i: nat :: !InProgressAt(sittings, i);
            Start(sittings, live, focus, visible, now).why ==
              if !visible && idle then NotAvailable
              else if forall id :: id in focus ==> id !in live then NoneOfTheFocus
              else AlreadyInProgress
  {
    var order := Focused(live, focus);
    if order != [] {
      assert order[0] in order;
    }
    if Current(sittings).Some? {
      assert InProgressAt(sittings, Current(sittings).value);
    }
  }

  /** Homework that is not open to students never gains an attempt. */
  lemma HiddenHomeworkStartsNothing(sittings: seq<Sitting>, live: seq<nat>, focus: set<nat>, now: Instant)
    ensures var r := Start(sittings, live, focus, false, now);
            r.Started? ==> |r.sittings| == |sittings| && InProgressAt(sittings, r.index)
  {
  }

  /** Retrying some questions is meant always to begin a fresh attempt.  It does exactly when none is in progress: beside
      one, the table's rule refuses it. */
  lemma FocusStartsIff(sittings: seq<Sitting>, live: seq<nat>, focus: set<nat>, now: Instant)
    requires focus != {}
    ensures Start(sittings, live, focus, true, now).Started? <==>
      (exists id :: id in focus && id in live) && (forall i: nat :: !InProgressAt(sittings, i))
    ensures var r := Start(sittings, live, focus, true, now);
            r.Started? ==> r.index == |sittings| && r.sittings == sittings + [Sitting(Begun(now), Focused(live, focus))]
  {
    var order := Focused(live, focus);
    if order != [] {
      assert order[0] in order;
    }
    if Current(sittings).Some? {
      assert InProgressAt(sittings, Current(sittings).value);
    }
  }

  // Questions 1 and 2 begun, and the second one asked for again.
  lemma FocusBesideAnAttemptIsRefused(now: Instant, later: Instant)
    ensures var begun := Start([], [1, 2], {}, true, now);
            begun.Started? && Start(begun.sittings, [1, 2], {2}, true, later) == Refused(AlreadyInProgress)
  {
    var begun := Start([], [1, 2], {}, true, now).sittings;
    assert begun == [Sitting(Begun(now), [1, 2])] && InProgressAt(begun, 0);
    assert 2 in Focused([1, 2], {2});
    FocusStartsIff(begun, [1, 2], {2}, later);
  }

  /** An abandoned attempt comes back exactly when it was never handed in, it was not abandoned too long ago, its running
      time is not used up once the dead time is taken off (the whole pause, if it was abandoned in one), and no other attempt
      has been begun since. */
  lemma ComesBackIff(sittings: seq<Sitting>, i: nat, now: Instant, cfg: Settings)
    requires i < |sittings| && sittings[i].clock.status == Abandoned
    ensures var s := sittings[i].clock;
            var dead := if s.pausedAt.Some? then Max(0, Seconds(now - s.pausedAt.value)) else Gap(s, now);
            InProgressAt(Asked(sittings, i, Resume, now, cfg), i) <==>
              s.submittedAt.None? && (cfg.window <= 0 || Gap(s, now) <= cfg.window) &&
              (cfg.maxLife <= 0 || Seconds(now - s.startedAt) - s.pausedSeconds - dead <= cfg.maxLife) &&
              forall j: nat :: !InProgressAt(sittings, j)
  {
    var s := sittings[i].clock;
    assert Elapsed(Revived(s, now), now) == Max(0, Seconds(now - s.startedAt) - Revived(s, now).pausedSeconds);
    if Current(sittings).Some? {
      assert InProgressAt(sittings, Current(sittings).value);
    }
    hide Seconds;
  }

  /** While homework is hidden no run of starts and requests gives a student an attempt they did not have. */
  lemma {:induction false} HiddenRunAddsNothing(sittings: seq<Sitting>, events: seq<Event>)
    requires forall k :: 0 <= k < |events| && events[k].what.Starting? ==> !events[k].what.visible
    ensures |Run(sittings, events)| == |sittings|
  {
    if events != [] {
      var init, e := events[..|events| - 1], events[|events| - 1];
      HiddenRunAddsNothing(sittings, init);
      if e.what.Starting? {
        HiddenHomeworkStartsNothing(Run(sittings, init), e.what.live, e.what.focus, e.now);
      }
      hide Step, Run, Start;
    }
  }
}
