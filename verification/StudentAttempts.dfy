/** The attempt itself: its row changed in place by each request, and graded once. */
module StudentAttempts {
  import opened Wrappers
  import opened Attempts
  import opened Grading

  /** What the attempt's rows hold. */
  datatype Paper<A> =
    Paper(clock: State, answers: map<nat, Answer<A>>, verdicts: map<nat, Verdict>, result: Option<Result>)

  function NewPaper<A>(now: Instant): Paper<A> {
    Paper(Begun(now), map[], map[], None)
  }

  /** Grading a submitted attempt on the live questions among the ones it was frozen to; any other attempt is left alone. */
  function GradedPaper<K, A>(p: Paper<A>, order: seq<nat>, live: seq<Question<K>>, ok: (Question<K>, A) -> bool): Paper<A> {
    if p.clock.status != Submitted then p
    else
      var questions := Covered(live, order);
      Paper(MarkedGraded(p.clock, TimeSpent(questions, p.answers)), p.answers,
            Marked(questions, p.answers, ok, p.verdicts), Some(Scored(questions, p.answers, ok)))
  }

  /** What grading on some questions writes: their number, their points, those earned and the ones right; the time of their
      answers if it is more than the attempt's; on each answered one's row its verdict, and on no other row anything. */
  ghost predicate GradedOn<K(!new), A>(
    p: Paper<A>, after: Paper<A>, questions: seq<Question<K>>, ok: (Question<K>, A) -> bool)
  {
    after.answers == p.answers &&
    after.clock == p.clock.(status := Status.Graded, totalSeconds := Max(p.clock.totalSeconds, Sum(SecondsOf(questions, p.answers)))) &&
    after.result == Some(Result(Sum(EarnedOf(questions, p.answers, ok)), Sum(PointsOf(questions)),
                                Sum(RightsOf(questions, p.answers, ok)), |questions|)) &&
    RowsMarked(p, after.verdicts, questions, ok)
  }

  ghost predicate RowsMarked<K(!new), A>(
    p: Paper<A>, verdicts: map<nat, Verdict>, questions: seq<Question<K>>, ok: (Question<K>, A) -> bool)
  {
    (forall q :: q in questions && q.id in p.answers ==>
       q.id in verdicts && verdicts[q.id].right == ok(q, p.answers[q.id].answer) &&
       verdicts[q.id].points == if verdicts[q.id].right then q.points else 0) &&
    forall id :: id !in p.answers || (forall q :: q in questions ==> q.id != id) ==>
      (id in verdicts <==> id in p.verdicts) && (id in p.verdicts ==> verdicts[id] == p.verdicts[id])
  }

  /** An attempt handed in and frozen to some questions is graded on exactly those of them still live, in its own order. */
  lemma FrozenIsGradedOn<K(!new), A>(p: Paper<A>, order: seq<nat>, live: seq<Question<K>>, ok: (Question<K>, A) -> bool)
    returns (at: seq<nat>, questions: seq<Question<K>>)
    requires p.clock.status == Submitted && order != [] && OneId(live)
    ensures LivePlaces(live, order, at) && |at| == |questions| && forall q :: q in questions <==> q in live && q.id in order
    ensures forall k :: 0 <= k < |at| ==> at[k] < |order| && order[at[k]] == questions[k].id
    ensures GradedOn(p, GradedPaper(p, order, live, ok), questions, ok)
  {
    at := CoveredAre(live, order);
    questions := Covered(live, order);
    IsGradedOn(p, order, live, ok);
    hide Covered, GradedPaper, GradedOn, LivePlaces;
  }

  /** One never frozen is graded on all the live questions. */
  lemma UnfrozenIsGradedOnAll<K(!new), A>(p: Paper<A>, live: seq<Question<K>>, ok: (Question<K>, A) -> bool)
    requires p.clock.status == Submitted && OneId(live)
    ensures GradedOn(p, GradedPaper(p, [], live, ok), live, ok)
  {
    IsGradedOn(p, [], live, ok);
  }

  lemma IsGradedOn<K(!new), A>(p: Paper<A>, order: seq<nat>, live: seq<Question<K>>, ok: (Question<K>, A) -> bool)
    requires p.clock.status == Submitted && OneId(live)
    ensures GradedOn(p, GradedPaper(p, order, live, ok), Covered(live, order), ok)
  {
    var questions := Covered(live, order);
    ResultSums(questions, p.answers, ok);
    if order != [] {
      var _ := CoveredAre(live, order);
    }
    RowsAreMarked(p, questions, live, ok);
    hide Covered, Scored, Marked, TimeSpent, Sum, PointsOf, EarnedOf, RightsOf, SecondsOf, RowsMarked, OneId;
  }

  lemma RowsAreMarked<K(!new), A>(p: Paper<A>, questions: seq<Question<K>>, live: seq<Question<K>>, ok: (Question<K>, A) -> bool)
    requires OneId(live) && forall q :: q in questions ==> q in live
    ensures RowsMarked(p, Marked(questions, p.answers, ok, p.verdicts), questions, ok)
  {
    hide Marked;
    var verdicts := Marked(questions, p.answers, ok, p.verdicts);
    forall q | q in questions && q.id in p.answers
      ensures q.id in verdicts && verdicts[q.id].right == ok(q, p.answers[q.id].answer) &&
              verdicts[q.id].points == if verdicts[q.id].right then q.points else 0
    {
      MarkedAt(questions, p.answers, ok, p.verdicts, q);
    }
    forall id | id !in p.answers || (forall q :: q in questions ==> q.id != id)
      ensures (id in verdicts <==> id in p.verdicts) && (id in p.verdicts ==> verdicts[id] == p.verdicts[id])
    {
      NotMarked(questions, p.answers, ok, p.verdicts, id);
    }
  }

  class StudentAttempt<A> {
    var status: Status
    const startedAt: Instant
    var submittedAt: Option<Instant>
    var abandonedAt: Option<Instant>
    var lastActivityAt: Option<Instant>
    var pausedAt: Option<Instant>
    var pausedSeconds: nat
    var activeSeconds: nat
    var totalSeconds: nat

    const questionOrder: seq<nat>
    var answers: map<nat, Answer<A>>
    var verdicts: map<nat, Verdict>
    var result: Option<Result>

    function Clock(): State
      reads this
    {
      State(status, startedAt, submittedAt, abandonedAt, lastActivityAt, pausedAt, pausedSeconds, activeSeconds, totalSeconds)
    }

    function Rows(): Paper<A>
      reads this
    {
      Paper(Clock(), answers, verdicts, result)
    }

    constructor (now: Instant, order: seq<nat>)
      ensures Rows() == NewPaper(now) && questionOrder == order
    {
      status, startedAt, submittedAt, abandonedAt := InProgress, now, None, None;
      lastActivityAt, pausedAt, pausedSeconds, activeSeconds, totalSeconds := Some(now), None, 0, 0, 0;
      questionOrder, answers, verdicts, result := order, map[], map[], None;
    }

    method GiveUp(now: Instant)
      modifies this`status, this`abandonedAt, this`lastActivityAt
      ensures Clock() == GaveUp(old(Clock()), now)
    {
      status := Abandoned;
      abandonedAt := Some(now);
      lastActivityAt := Some(now);
    }

    method BankPause(now: Instant)
      modifies this`pausedSeconds, this`pausedAt
      ensures Clock() == Banked(old(Clock()), now)
    {
      if pausedAt.Some? {
        pausedSeconds := pausedSeconds + Max(0, Seconds(now - pausedAt.value));
        pausedAt := None;
      }
    }

    /** The answer's own row is Answers.AnswerRow; stored says whether it took the write. */
    method Save(now: Instant, cfg: Settings, stored: bool)
      modifies this`status, this`abandonedAt, this`lastActivityAt, this`pausedSeconds, this`pausedAt, this`activeSeconds
      ensures Clock() == Saved(old(Clock()), now, cfg, stored)
    {
      if status != InProgress {
        return;
      }
      if cfg.maxLife > 0 && Elapsed(Clock(), now) > cfg.maxLife {
        GiveUp(now);
        return;
      }
      if !stored {
        return;
      }
      BankPause(now);
      var previous := if lastActivityAt.Some? then lastActivityAt.value else startedAt;
      activeSeconds := activeSeconds + Slice(previous, now, cfg);
      lastActivityAt := Some(now);
    }

    method Submit(now: Instant, cfg: Settings, complete: bool, answerSeconds: nat)
      modifies this`status, this`submittedAt, this`lastActivityAt, this`pausedSeconds, this`pausedAt, this`activeSeconds,
               this`totalSeconds
      ensures Clock() == HandedIn(old(Clock()), now, cfg, complete, answerSeconds)
    {
      ghost var s := Clock();
      assert now <= LastSeen(s) ==> Slice(LastSeen(s), now, cfg) == 0;
      assert Banked(s.(status := Submitted, submittedAt := Some(now)), now) ==
             Banked(s, now).(status := Submitted, submittedAt := Some(now));
      assert Elapsed(Banked(s, now).(status := Submitted, submittedAt := Some(now)), now) == Elapsed(Banked(s, now), now);
      assert Banked(s, now).activeSeconds == s.activeSeconds;
      assert HandedIn(s, now, cfg, complete, answerSeconds) ==
             if status != InProgress || (cfg.maxLife > 0 && Elapsed(s, now) > cfg.maxLife) || !complete then s
             else Closed(s, now, cfg, answerSeconds);
      hide *;
      if status == Submitted || status == Graded || status == Abandoned {
        return;
      }
      if cfg.maxLife > 0 && Elapsed(Clock(), now) > cfg.maxLife {
        return;
      }
      if !complete {
        return;
      }
      var previous := if lastActivityAt.Some? then lastActivityAt.value else startedAt;
      status := Submitted;
      submittedAt := Some(now);
      BankPause(now);
      var span := Max(0, Min(SPAN_CAP, Elapsed(Clock(), now)));
      totalSeconds := Max(span, Min(SPAN_CAP, answerSeconds));
      if previous < now {
        activeSeconds := activeSeconds + Slice(previous, now, cfg);
      }
      lastActivityAt := Some(now);
    }

    method AbandonAttempt(now: Instant)
      modifies this`status, this`abandonedAt, this`lastActivityAt
      ensures Clock() == GivenUp(old(Clock()), now)
    {
      if status != InProgress {
        return;
      }
      GiveUp(now);
    }

    method PauseAttempt(now: Instant)
      modifies this`pausedAt
      ensures Clock() == Paused(old(Clock()), now)
    {
      if status != InProgress {
        return;
      }
      if pausedAt.None? {
        pausedAt := Some(now);
      }
    }

    method ResumeAttempt(now: Instant, cfg: Settings)
      modifies this`status, this`abandonedAt, this`lastActivityAt, this`pausedSeconds, this`pausedAt
      ensures Clock() == Resumed(old(Clock()), now, cfg)
    {
      hide Seconds, Elapsed;
      if status == Abandoned && submittedAt.None? {
        var gap := if abandonedAt.Some? then Max(0, Seconds(now - abandonedAt.value)) else 0;
        var recent := cfg.window <= 0 || gap <= cfg.window;
        var dead := if pausedAt.Some? then Max(0, Seconds(now - pausedAt.value)) else gap;
        var banked := Clock().(pausedSeconds := pausedSeconds + dead, pausedAt := None);
        if recent && !Expired(banked, now, cfg) {
          status, abandonedAt, lastActivityAt := InProgress, None, Some(now);
          pausedSeconds, pausedAt := banked.pausedSeconds, None;
        }
        return;
      }
      if status != InProgress {
        return;
      }
      if pausedAt.Some? {
        BankPause(now);
        lastActivityAt := Some(now);
      }
    }

    /** The reaper's look at one attempt. */
    method ReapIfInactive(now: Instant, cfg: Settings) returns (reaped: bool)
      modifies this`status, this`abandonedAt, this`lastActivityAt
      ensures Clock() == Reaped(old(Clock()), now, cfg)
      ensures reaped <==> old(status) == InProgress && Inactive(old(Clock()), now, cfg)
    {
      if status != InProgress {
        return false;
      }
      if pausedAt.Some? {
        if pausedAt.value > now - cfg.PausedTimeout() * SECOND {
          return false;
        }
      } else {
        var last := if lastActivityAt.Some? then lastActivityAt.value else startedAt;
        if last > now - cfg.Timeout() * SECOND {
          return false;
        }
      }
      GiveUp(now);
      return true;
    }

    /** Grades a submitted attempt on the questions as they are now; on any other it only reports what is there. */
    method GradeOnce<K>(live: seq<Question<K>>, ok: (Question<K>, A) -> bool) returns (r: Option<Result>)
      modifies this`status, this`totalSeconds, this`verdicts, this`result
      ensures Rows() == GradedPaper(old(Rows()), questionOrder, live, ok)
      ensures r == result
    {
      if status == Graded {
        return result;
      }
      if status != Submitted {
        return result;
      }
      Mark(live, ok);
      return result;
    }

    /** What grading does once it has found the attempt handed in. */
    method Mark<K>(live: seq<Question<K>>, ok: (Question<K>, A) -> bool)
      requires status == Submitted
      modifies this`status, this`totalSeconds, this`verdicts, this`result
      ensures Rows() == GradedPaper(old(Rows()), questionOrder, live, ok)
    {
      var questions := Covered(live, questionOrder);
      var score: nat, max: nat, correct: nat, seconds: nat := 0, 0, 0, 0;
      assert questions[..0] == [];
      assert Scored(questions[..0], answers, ok) == Result(0, 0, 0, 0);
      hide Scored, TimeSpent, Marked, Covered;
      for i := 0 to |questions|
        invariant Clock() == old(Clock())
        invariant Result(score, max, correct, i) == Scored(questions[..i], answers, ok)
        invariant seconds == TimeSpent(questions[..i], answers)
        invariant verdicts == Marked(questions[..i], answers, ok, old(verdicts))
      {
        var q := questions[i];
        OneMoreGraded(questions, i, answers, ok, old(verdicts));
        max := max + q.points;
        var a := AnswerTo(answers, q.id);
        var right := false;
        if a.Some? {
          seconds := seconds + a.value.seconds;
          right := ok(q, a.value.answer);
          verdicts := verdicts[q.id := Verdict(right, if right then q.points else 0)];
        }
        if right {
          correct := correct + 1;
          score := score + q.points;
        }
      }
      assert questions[..|questions|] == questions;
      result := Some(Result(score, max, correct, |questions|));
      status := Graded;
      totalSeconds := Max(totalSeconds, seconds);
    }
  }

  // ---------- over any run ----------

  /** What happens to an attempt: a request, an answer written to a question, or grading on the questions as they are then. */
  datatype Act<!K, !A> =
    | Asks(request: Request)
    | Writes(written: Answer<A>)
    | Grades(live: seq<Question<K>>, ok: (Question<K>, A) -> bool)

  datatype Moment<!K, !A> = Moment(now: Instant, cfg: Settings, act: Act<K, A>)

  /** An answer is stored only while the attempt can still be saved. */
  function PaperAfter<K, A>(p: Paper<A>, order: seq<nat>, m: Moment<K, A>): Paper<A> {
    match m.act
    case Asks(request) => if request.Grade? then p else p.(clock := Step(p.clock, request, m.now, m.cfg))
    case Writes(written) =>
      var clock := Saved(p.clock, m.now, m.cfg, true);
      p.(clock := clock,
         answers := if clock.status == InProgress then p.answers[written.question := written] else p.answers)
    case Grades(live, ok) => GradedPaper(p, order, live, ok)
  }

  function PapersAfter<K, A>(p: Paper<A>, order: seq<nat>, moments: seq<Moment<K, A>>): Paper<A> {
    if moments == [] then p
    else PaperAfter(PapersAfter(p, order, moments[..|moments| - 1]), order, moments[|moments| - 1])
  }

  /** Once graded, nothing that comes changes the result, the verdicts, the answers or the clock. */
  lemma {:induction false} GradedForGood<K, A>(p: Paper<A>, order: seq<nat>, moments: seq<Moment<K, A>>)
    requires p.clock.status == Status.Graded
    ensures PapersAfter(p, order, moments) == p
  {
    if moments != [] {
      GradedForGood(p, order, moments[..|moments| - 1]);
    }
  }

  /** Over any run of requests, answers and gradings from the attempt's start, the questions edited at will in between, there
      is a result exactly when the attempt was graded, and it is the score of the first grading that found it handed in: on
      the questions and answers of that moment. */
  lemma {:induction false} FirstGradingStands<K, A>(now: Instant, order: seq<nat>, moments: seq<Moment<K, A>>)
    ensures var p := PapersAfter(NewPaper<A>(now), order, moments);
            p.result.Some? <==> p.clock.status == Status.Graded
    ensures PapersAfter(NewPaper<A>(now), order, moments).result.Some? ==>
      exists k: nat :: GradedAt(now, order, moments, k) && PapersAfter(NewPaper<A>(now), order, moments) ==
                                                     PapersAfter(NewPaper<A>(now), order, moments[..k + 1])
  {
    if moments != [] {
      var n, init := |moments|, moments[..|moments| - 1];
      FirstGradingStands<K, A>(now, order, init);
      var before, after := PapersAfter(NewPaper<A>(now), order, init), PapersAfter(NewPaper<A>(now), order, moments);
      assert moments[..n] == moments;
      LastMoment(now, order, moments);
      hide PapersAfter, GradedAt;
      if before.result.Some? {
        var k: nat :| GradedAt(now, order, init, k) && before == PapersAfter(NewPaper<A>(now), order, init[..k + 1]);
        GradedBefore(now, order, moments, k);
      }
    }
  }

  /** Only grading makes an attempt graded, and nothing changes one that is. */
  lemma RequestsDoNotGrade(s: State, r: Request, now: Instant, cfg: Settings)
    requires !r.Grade?
    ensures Step(s, r, now, cfg).status == Status.Graded <==> s.status == Status.Graded
    ensures s.status == Status.Graded ==> Step(s, r, now, cfg) == s
  {
    hide Elapsed, Seconds;
  }

  lemma OneMoment<K, A>(p: Paper<A>, order: seq<nat>, m: Moment<K, A>)
    requires p.result.Some? <==> p.clock.status == Status.Graded
    ensures var after := PaperAfter(p, order, m);
            (after.result.Some? <==> after.clock.status == Status.Graded) && (p.result.Some? ==> after == p) &&
            (p.result.None? && after.result.Some? ==>
               m.act.Grades? && p.clock.status == Submitted && after == GradedPaper(p, order, m.act.live, m.act.ok))
  {
    match m.act
    case Asks(request) => if !request.Grade? { RequestsDoNotGrade(p.clock, request, m.now, m.cfg); }
    case Writes(written) => RequestsDoNotGrade(p.clock, Save(true), m.now, m.cfg);
    case Grades(live, ok) =>
    hide Step, Scored, Marked, TimeSpent, Covered, Saved;
  }

  /** The last moment leaves a graded attempt alone, and gives a result only by grading one that was handed in. */
  lemma LastMoment<K, A>(now: Instant, order: seq<nat>, moments: seq<Moment<K, A>>)
    requires moments != []
    requires var before := PapersAfter(NewPaper<A>(now), order, moments[..|moments| - 1]);
             before.result.Some? <==> before.clock.status == Status.Graded
    ensures var (before, after) := (PapersAfter(NewPaper<A>(now), order, moments[..|moments| - 1]), PapersAfter(NewPaper<A>(now), order, moments));
            (after.result.Some? <==> after.clock.status == Status.Graded) &&
            (before.result.Some? ==> after == before) &&
            (before.result.None? && after.result.Some? ==> GradedAt(now, order, moments, |moments| - 1))
  {
    var n, last := |moments|, moments[|moments| - 1];
    var before := PapersAfter(NewPaper<A>(now), order, moments[..n - 1]);
    assert moments[..n] == moments;
    assert PapersAfter(NewPaper<A>(now), order, moments) == PaperAfter(before, order, last);
    hide PapersAfter, PaperAfter, Scored, Marked, TimeSpent, Covered;
    OneMoment(before, order, last);
  }

  lemma GradedBefore<K, A>(now: Instant, order: seq<nat>, moments: seq<Moment<K, A>>, k: nat)
    requires moments != [] && GradedAt(now, order, moments[..|moments| - 1], k)
    ensures GradedAt(now, order, moments, k) && k + 1 < |moments| && moments[..|moments| - 1][..k + 1] == moments[..k + 1]
  {
    var init := moments[..|moments| - 1];
    assert init[..k] == moments[..k] && init[..k + 1] == moments[..k + 1] && init[k] == moments[k];
    hide PapersAfter, Scored, Marked, Covered;
  }

  /** The k-th moment graded the attempt: it was handed in, and the result is the score on what was there. */
  ghost predicate GradedAt<K, A>(now: Instant, order: seq<nat>, moments: seq<Moment<K, A>>, k: nat) {
    k < |moments| && moments[k].act.Grades? &&
    var before, after := PapersAfter(NewPaper<A>(now), order, moments[..k]), PapersAfter(NewPaper<A>(now), order, moments[..k + 1]);
    before.clock.status == Status.Submitted &&
    after.result == Some(Scored(Covered(moments[k].act.live, order), before.answers, moments[k].act.ok)) &&
    after.verdicts == Marked(Covered(moments[k].act.live, order), before.answers, moments[k].act.ok, before.verdicts)
  }
}
